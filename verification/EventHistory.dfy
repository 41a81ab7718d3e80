/** Many aggregate instances, in many processes, loading, raising and saving against one table:
    what every interleaving of their statements keeps. */
module EventHistory {
  import opened Ordering
  import opened EventStore

  // ---------------------------------------------------------------- The step system

  /** Where an instance stands between two of its statements. */
  datatype Phase =
    | Idle
    | Restoring(source: Key)  // the snapshot is read, the tail is not
    | Saving(next: nat)       // the inserts of Append before `next` have succeeded
    | Saved                   // Append is through, the snapshot upsert is due

  /** `history` lists the events the instance was loaded from and those it raised since. */
  datatype Instance<S> = Instance(agg: Aggregate<S>, phase: Phase, history: seq<Event>)

  /** An event, and the history of the instance that raised it just before it did. */
  datatype Raise = Raise(before: seq<Event>, event: Event)

  /** `origins` and `raises` record the past; no step depends on them. */
  datatype World<S, P> = World(
    rows: Rows,
    snaps: map<Key, Snapshot<P>>,
    origins: map<Key, seq<Event>>,
    instances: map<nat, Instance<S>>,
    raises: set<Raise>)

  datatype Step<S> =
    | Create(who: nat, key: Key)
    | Load(who: nat, key: Key, own: Key)
    | ReadSnapshot(who: nat, key: Key, own: Key)
    | ReadTail(who: nat)
    | RaiseEvent(who: nat, uid: string, kind: string, data: string, state: S)
    | BeginSave(who: nat)
    | InsertNext(who: nat, fault: Fault)
    | WriteSnapshot(who: nat, fault: Fault)

  function Start<S, P>(): World<S, P> {
    World(map[], map[], map[], map[], {})
  }

  predicate In<S, P>(w: World<S, P>, who: nat) {
    who in w.instances
  }

  function Put<S, P>(w: World<S, P>, who: nat, i: Instance<S>): World<S, P> {
    w.(instances := w.instances[who := i])
  }

  /** One statement or one in-memory action; a step whose turn it is not leaves the world alone. */
  function Next<S, P>(m: Model<S, P>, w: World<S, P>, step: Step<S>): World<S, P>
    requires m.interval != 0
  {
    match step
    case Create(who, key) => Put(w, who, Instance(Fresh(m, key), Idle, []))
    case Load(who, key, own) => LoadOf(m, w, who, key, own)
    case ReadSnapshot(who, key, own) => if key in w.snaps && key in w.origins then RestoreOf(m, w, who, key, own) else w
    case ReadTail(who) => if In(w, who) && w.instances[who].phase.Restoring? then TailOf(m, w, who) else w
    case RaiseEvent(who, uid, kind, data, state) =>
      if In(w, who) && w.instances[who].phase.Idle? then RaiseOf(w, who, uid, kind, data, state) else w
    case BeginSave(who) => if In(w, who) && w.instances[who].phase.Idle? then BeginOf(w, who) else w
    case InsertNext(who, fault) => if In(w, who) && w.instances[who].phase.Saving? then InsertOf(w, who, fault) else w
    case WriteSnapshot(who, fault) =>
      if In(w, who) && w.instances[who].phase.Saved? then WriteOf(m, w, who, fault) else w
  }

  /** A load that fails hands its caller nothing. */
  function LoadOf<S, P>(m: Model<S, P>, w: World<S, P>, who: nat, key: Key, own: Key): World<S, P> {
    var r := FullLoad(m, w.rows, key, own);
    if r.failed then w else Put(w, who, Instance(r.agg, Idle, SelectFrom(w.rows, key, 0)))
  }

  function RestoreOf<S, P>(m: Model<S, P>, w: World<S, P>, who: nat, key: Key, own: Key): World<S, P>
    requires key in w.snaps && key in w.origins
  {
    var r := Restore(m, w.snaps[key], own);
    if r.failed then w else Put(w, who, Instance(r.agg, Restoring(key), w.origins[key]))
  }

  function TailOf<S, P>(m: Model<S, P>, w: World<S, P>, who: nat): World<S, P>
    requires In(w, who) && w.instances[who].phase.Restoring?
  {
    var i := w.instances[who];
    var r := TailLoad(m, w.rows, i.phase.source, i.agg);
    if r.failed then w.(instances := w.instances - {who})
    else Put(w, who, Instance(r.agg, Idle, i.history + SelectFrom(w.rows, i.phase.source, i.agg.version)))
  }

  /** `state` is whatever the aggregate's own code makes of its fields. */
  function RaiseOf<S, P>(w: World<S, P>, who: nat, uid: string, kind: string, data: string, state: S): World<S, P>
    requires In(w, who)
  {
    var i := w.instances[who];
    var e := NewEvent(i.agg, uid, kind, data);
    Put(w, who, Instance(Raised(i.agg, e).(state := state), Idle, i.history + [e]))
    .(raises := w.raises + {Raise(i.history, e)})
  }

  function BeginOf<S, P>(w: World<S, P>, who: nat): World<S, P>
    requires In(w, who)
  {
    var i := w.instances[who];
    Put(w, who, i.(phase := if i.agg.uncommitted == [] then Saved else Saving(0)))
  }

  /** The insert at hand: an error ends the save with the pending events kept, the last success clears them. */
  function InsertOf<S, P>(w: World<S, P>, who: nat, fault: Fault): World<S, P>
    requires In(w, who) && w.instances[who].phase.Saving?
  {
    var i := w.instances[who];
    if i.phase.next >= |i.agg.uncommitted| then w
    else
      var r := Insert(w.rows, i.agg.uncommitted[i.phase.next], fault);
      var done := w.(rows := r.rows);
      if r.failed then Put(done, who, i.(phase := Idle))
      else if i.phase.next + 1 < |i.agg.uncommitted| then Put(done, who, i.(phase := Saving(i.phase.next + 1)))
      else Put(done, who, i.(agg := i.agg.(uncommitted := []), phase := Saved))
  }

  function WriteOf<S, P>(m: Model<S, P>, w: World<S, P>, who: nat, fault: Fault): World<S, P>
    requires m.interval != 0 && In(w, who)
  {
    var i := w.instances[who];
    var done := Put(w, who, i.(phase := Idle));
    if Due(m, i.agg) && !fault.NotExecuted?
    then done.(snaps := Upsert(m, w.snaps, i.agg, fault), origins := w.origins[i.agg.key := i.history])
    else done
  }

  function Run<S, P>(m: Model<S, P>, w: World<S, P>, steps: seq<Step<S>>): World<S, P>
    requires m.interval != 0
    decreases |steps|
  {
    if steps == [] then w else Run(m, Next(m, w, steps[0]), steps[1..])
  }

  lemma {:induction false} RunConcat<S, P>(m: Model<S, P>, w: World<S, P>, s: seq<Step<S>>, t: seq<Step<S>>)
    requires m.interval != 0
    ensures Run(m, w, s + t) == Run(m, Run(m, w, s), t)
    decreases |s|
  {
    if s == [] {
      assert s + t == t;
    } else {
      RunConcat(m, Next(m, w, s[0]), s[1..], t);
      assert (s + t)[1..] == s[1..] + t;
    }
  }

  // ---------------------------------------------------------------- The table as streams

  /** The stream of an aggregate, as Load reads it. */
  function Stream(rows: Rows, key: Key): seq<Event> {
    SelectFrom(rows, key, 0)
  }

  /** Events of one aggregate with versions 1, 2, 3, ... */
  ghost predicate Numbered(key: Key, h: seq<Event>) {
    forall j :: 0 <= j < |h| ==> h[j].key == key && h[j].version == j + 1
  }

  /** Rows lie in their slots, versions start at 1 and leave no gap. */
  ghost predicate Dense(rows: Rows) {
    && (forall s :: s in rows ==> s.version >= 1 && rows[s].key == s.key && rows[s].version == s.version)
    && (forall s, v {:trigger Slot(s.key, v), s in rows} :: s in rows && 1 <= v < s.version ==> Slot(s.key, v) in rows)
  }

  ghost predicate HoldsAt(rows: Rows, key: Key, h: seq<Event>, j: nat)
    requires j < |h|
  {
    Slot(key, j + 1) in rows && rows[Slot(key, j + 1)] == h[j]
  }

  /** `h` is an initial part of the key's stream. */
  ghost predicate Stored(rows: Rows, key: Key, h: seq<Event>) {
    forall j :: 0 <= j < |h| ==> HoldsAt(rows, key, h, j)
  }

  /** A set of versions above `from` without gaps, read out in order. */
  lemma {:induction false} AscendingFrom(vs: set<int>, from: int, i: nat)
    requires i < |vs|
    requires forall v :: v in vs ==> v > from
    requires forall v, u :: v in vs && from < u < v ==> u in vs
    ensures Ascending(vs)[i] == from + 1 + i
    decreases i
  {
    var first := Least(vs);
    assert from + 1 in vs;
    if i > 0 {
      var rest := vs - {first};
      forall v, u | v in rest && first < u < v
        ensures u in rest
      {
        assert u in vs;
      }
      AscendingFrom(rest, first, i - 1);
      assert Ascending(vs) == [first] + Ascending(rest);
    }
  }

  lemma VersionAt(rows: Rows, key: Key, from: nat, i: nat)
    requires Dense(rows) && i < |Versions(rows, key, from)|
    ensures Ascending(Versions(rows, key, from))[i] == from + 1 + i
  {
    var vs := Versions(rows, key, from);
    forall v, u | v in vs && from < u < v
      ensures u in vs
    {
      assert Slot(key, v) in rows;
      assert Slot(key, u) in rows && Slot(key, u).version == u;
    }
    AscendingFrom(vs, from, i);
  }

  lemma SelectAt(rows: Rows, key: Key, from: int, i: nat)
    requires i < |SelectFrom(rows, key, from)|
    ensures i < |Versions(rows, key, from)|
    ensures var v := Ascending(Versions(rows, key, from))[i];
            Slot(key, v) in rows && SelectFrom(rows, key, from)[i] == rows[Slot(key, v)]
  {
    AscendingFacts(Versions(rows, key, from));
    assert Ascending(Versions(rows, key, from))[i] in Versions(rows, key, from);
  }

  lemma StreamAt(rows: Rows, key: Key, from: nat, i: nat)
    requires Dense(rows) && i < |SelectFrom(rows, key, from)|
    ensures Slot(key, from + 1 + i) in rows && SelectFrom(rows, key, from)[i] == rows[Slot(key, from + 1 + i)]
  {
    SelectAt(rows, key, from, i);
    VersionAt(rows, key, from, i);
  }

  lemma SlotInStream(rows: Rows, key: Key, from: nat, v: int)
    requires Dense(rows) && Slot(key, v) in rows && v > from
    ensures v - from - 1 < |SelectFrom(rows, key, from)|
  {
    var vs := Versions(rows, key, from);
    assert Slot(key, v).version in vs;
    AscendingFacts(vs);
    assert v in Ascending(vs);
    var k :| 0 <= k < |Ascending(vs)| && Ascending(vs)[k] == v;
    StreamAt(rows, key, from, k);
    assert rows[Slot(key, from + 1 + k)].version == from + 1 + k;
    assert rows[Slot(key, v)].version == v;
  }

  lemma SlotFree(rows: Rows, key: Key, v: int)
    requires Dense(rows) && v > |Stream(rows, key)|
    ensures Slot(key, v) !in rows
  {
    if Slot(key, v) in rows {
      SlotInStream(rows, key, 0, v);
    }
  }

  lemma TailAt(rows: Rows, key: Key, from: nat, i: nat)
    requires Dense(rows) && i < |SelectFrom(rows, key, from)|
    ensures from + i < |Stream(rows, key)| && Stream(rows, key)[from + i] == SelectFrom(rows, key, from)[i]
  {
    StreamAt(rows, key, from, i);
    SlotInStream(rows, key, 0, from + 1 + i);
    StreamAt(rows, key, 0, from + i);
  }

  lemma TailReaches(rows: Rows, key: Key, from: nat, i: nat)
    requires Dense(rows) && from + i < |Stream(rows, key)|
    ensures i < |SelectFrom(rows, key, from)|
  {
    StreamAt(rows, key, 0, from + i);
    SlotInStream(rows, key, from, from + i + 1);
  }

  /** Reading from a version is dropping that many events of the stream. */
  lemma SelectIsTail(rows: Rows, key: Key, from: nat)
    requires Dense(rows) && from <= |Stream(rows, key)|
    ensures SelectFrom(rows, key, from) == Stream(rows, key)[from..]
  {
    var all, tail := Stream(rows, key), SelectFrom(rows, key, from);
    if |tail| > 0 {
      TailAt(rows, key, from, |tail| - 1);
    }
    if from < |all| {
      TailReaches(rows, key, from, |all| - from - 1);
    }
    forall i | 0 <= i < |tail|
      ensures tail[i] == all[from..][i]
    {
      TailAt(rows, key, from, i);
    }
  }

  lemma StreamIsStored(rows: Rows, key: Key)
    requires Dense(rows)
    ensures Stored(rows, key, Stream(rows, key)) && Numbered(key, Stream(rows, key))
  {
    var stream := Stream(rows, key);
    forall j | 0 <= j < |stream|
      ensures HoldsAt(rows, key, stream, j) && stream[j].key == key && stream[j].version == j + 1
    {
      StreamAt(rows, key, 0, j);
    }
  }

  lemma StoredAt(rows: Rows, key: Key, h: seq<Event>, j: nat)
    requires Dense(rows) && Stored(rows, key, h) && j < |h|
    ensures j < |Stream(rows, key)| && Stream(rows, key)[j] == h[j]
  {
    assert HoldsAt(rows, key, h, j);
    SlotInStream(rows, key, 0, j + 1);
    StreamAt(rows, key, 0, j);
  }

  lemma StoredIsPrefix(rows: Rows, key: Key, h: seq<Event>)
    requires Dense(rows) && Stored(rows, key, h)
    ensures h <= Stream(rows, key) && Numbered(key, h)
  {
    var stream := Stream(rows, key);
    forall j | 0 <= j < |h|
      ensures j < |stream| && stream[j] == h[j]
    {
      StoredAt(rows, key, h, j);
    }
    if h != [] {
      StoredAt(rows, key, h, |h| - 1);
    }
    StreamIsStored(rows, key);
  }

  // ---------------------------------------------------------------- The history invariant

  ghost predicate Extends(newer: Rows, older: Rows) {
    forall s :: s in older ==> s in newer && newer[s] == older[s]
  }

  function Base<S>(i: Instance<S>): int {
    |i.history| - |i.agg.uncommitted|
  }

  /** How much of its history the instance knows to be in the table. */
  function Committed<S>(i: Instance<S>): int {
    Base(i) + if i.phase.Saving? then i.phase.next else 0
  }

  ghost predicate RaisedAt(raises: set<Raise>, h: seq<Event>, j: nat)
    requires j < |h|
  {
    Raise(h[..j], h[j]) in raises
  }

  ghost predicate Pending(raises: set<Raise>, h: seq<Event>, from: int) {
    0 <= from <= |h| && forall j :: from <= j < |h| ==> RaisedAt(raises, h, j)
  }

  ghost predicate Consistent<S>(i: Instance<S>) {
    && i.agg.version == |i.history|
    && 0 <= Base(i)
    && i.agg.uncommitted == i.history[Base(i)..]
    && Numbered(i.agg.key, i.history)
    && (i.phase.Saving? ==> i.phase.next < |i.agg.uncommitted|)
    && (i.phase.Saved? || i.phase.Restoring? ==> i.agg.uncommitted == [])
    && (i.phase.Restoring? ==> i.phase.source == i.agg.key)
  }

  ghost predicate InstanceOk<S>(rows: Rows, raises: set<Raise>, i: Instance<S>) {
    && Consistent(i)
    && Stored(rows, i.agg.key, i.history[..Committed(i)])
    && Pending(raises, i.history, Base(i))
  }

  /** The event in this slot was raised on top of exactly the events stored before it. */
  ghost predicate Attributed(rows: Rows, raises: set<Raise>, s: Slot)
    requires s in rows
  {
    exists h :: |h| == s.version - 1 && Stored(rows, s.key, h) && Raise(h, rows[s]) in raises
  }

  ghost predicate Inv<S, P>(w: World<S, P>) {
    && Dense(w.rows)
    && (forall s :: s in w.rows ==> Attributed(w.rows, w.raises, s))
    && (forall a :: a in w.instances ==> InstanceOk(w.rows, w.raises, w.instances[a]))
    && w.snaps.Keys == w.origins.Keys
    && (forall k :: k in w.snaps ==> w.snaps[k].version == |w.origins[k]| && Stored(w.rows, k, w.origins[k]))
  }

  /** Load and ReadSnapshot hand out an aggregate that carries the identity it was loaded under. */
  predicate Identified<S>(step: Step<S>) {
    match step
    case Load(_, key, own) => own == key
    case ReadSnapshot(_, key, own) => own == key
    case _ => true
  }

  lemma StoredExtends(newer: Rows, older: Rows, key: Key, h: seq<Event>)
    requires Extends(newer, older) && Stored(older, key, h)
    ensures Stored(newer, key, h)
  {
    forall j | 0 <= j < |h|
      ensures HoldsAt(newer, key, h, j)
    {
      assert HoldsAt(older, key, h, j);
    }
  }

  lemma InstanceExtends<S>(newer: Rows, older: Rows, more: set<Raise>, raises: set<Raise>, i: Instance<S>)
    requires Extends(newer, older) && raises <= more && InstanceOk(older, raises, i)
    ensures InstanceOk(newer, more, i)
  {
    StoredExtends(newer, older, i.agg.key, i.history[..Committed(i)]);
    forall j | Base(i) <= j < |i.history|
      ensures RaisedAt(more, i.history, j)
    {
      assert RaisedAt(raises, i.history, j);
    }
  }

  lemma AttributionExtends(newer: Rows, older: Rows, more: set<Raise>, raises: set<Raise>, s: Slot)
    requires Extends(newer, older) && raises <= more && s in older && Attributed(older, raises, s)
    ensures Attributed(newer, more, s)
  {
    var h :| |h| == s.version - 1 && Stored(older, s.key, h) && Raise(h, older[s]) in raises;
    StoredExtends(newer, older, s.key, h);
  }

  /** A step of `who` that keeps its own instance in order keeps the whole world in order. */
  lemma Assemble<S, P>(w: World<S, P>, v: World<S, P>, who: nat)
    requires Inv(w) && Extends(v.rows, w.rows) && w.raises <= v.raises && Dense(v.rows)
    requires forall s :: s in v.rows && s !in w.rows ==> Attributed(v.rows, v.raises, s)
    requires v.snaps == w.snaps && v.origins == w.origins
    requires who in v.instances && v.instances == w.instances[who := v.instances[who]]
    requires InstanceOk(v.rows, v.raises, v.instances[who])
    ensures Inv(v)
  {
    forall a | a in v.instances
      ensures InstanceOk(v.rows, v.raises, v.instances[a])
    {
      if a != who {
        InstanceExtends(v.rows, w.rows, v.raises, w.raises, w.instances[a]);
      }
    }
    forall s | s in v.rows
      ensures Attributed(v.rows, v.raises, s)
    {
      if s in w.rows {
        AttributionExtends(v.rows, w.rows, v.raises, w.raises, s);
      }
    }
    forall k | k in v.snaps
      ensures Stored(v.rows, k, v.origins[k])
    {
      StoredExtends(v.rows, w.rows, k, w.origins[k]);
    }
  }

  ghost predicate Consecutive(from: int, events: seq<Event>) {
    forall j :: 0 <= j < |events| ==> events[j].version == from + j + 1
  }

  /** Replaying consecutive events leaves the version at the last one. */
  lemma {:induction false} ReplayVersion<S>(step: (S, Event) -> Handled<S>, agg: Aggregate<S>, events: seq<Event>)
    requires Consecutive(agg.version, events)
    ensures var r := Replay(step, agg, events);
            r.agg.key == agg.key && r.agg.uncommitted == agg.uncommitted
            && (!r.failed ==> r.agg.version == agg.version + |events|)
    decreases |events|
  {
    if events != [] {
      var h := step(agg.state, events[0]);
      if !h.failed {
        ReplayVersion(step, agg.(state := h.state, version := events[0].version), events[1..]);
      }
    }
  }

  /** An aggregate that has just been folded over the whole stream. */
  lemma LoadedOk<S>(rows: Rows, raises: set<Raise>, agg: Aggregate<S>)
    requires Dense(rows) && agg.version == |Stream(rows, agg.key)| && agg.uncommitted == []
    ensures InstanceOk(rows, raises, Instance(agg, Idle, Stream(rows, agg.key)))
  {
    var stream := Stream(rows, agg.key);
    StreamIsStored(rows, agg.key);
    var i := Instance(agg, Idle, stream);
    assert i.agg.uncommitted == stream[|stream|..];
    assert i.history[..Committed(i)] == stream;
  }

  lemma {:induction false} LoadKeeps<S, P>(m: Model<S, P>, w: World<S, P>, who: nat, key: Key)
    requires Inv(w)
    ensures Inv(LoadOf(m, w, who, key, key)) && LoadOf(m, w, who, key, key).rows == w.rows
  {
    var stream := Stream(w.rows, key);
    StreamIsStored(w.rows, key);
    ReplayVersion(m.handle, Fresh(m, key), stream);
    var r := FullLoad(m, w.rows, key, key);
    if !r.failed {
      LoadedOk(w.rows, w.raises, r.agg);
      Assemble(w, Put(w, who, Instance(r.agg, Idle, stream)), who);
    }
  }

  lemma RestoreKeeps<S, P>(m: Model<S, P>, w: World<S, P>, who: nat, key: Key)
    requires Inv(w) && key in w.snaps
    ensures Inv(RestoreOf(m, w, who, key, key)) && RestoreOf(m, w, who, key, key).rows == w.rows
  {
    var h := w.origins[key];
    StoredIsPrefix(w.rows, key, h);
    var r := Restore(m, w.snaps[key], key);
    if !r.failed {
      var i := Instance(r.agg, Restoring(key), h);
      assert h[..Committed(i)] == h;
      Assemble(w, Put(w, who, i), who);
    }
  }

  /** A restored instance and the tail read after it make up the whole stream. */
  lemma RestoredPlusTail<S>(rows: Rows, raises: set<Raise>, i: Instance<S>)
    requires Dense(rows) && InstanceOk(rows, raises, i) && i.phase.Restoring?
    ensures i.history + SelectFrom(rows, i.agg.key, i.agg.version) == Stream(rows, i.agg.key)
    ensures Consecutive(i.agg.version, SelectFrom(rows, i.agg.key, i.agg.version))
  {
    assert i.history[..Committed(i)] == i.history;
    StoredIsPrefix(rows, i.agg.key, i.history);
    StreamIsStored(rows, i.agg.key);
    TailFollows(rows, i.agg.key, |i.history|);
  }

  lemma TailFollows(rows: Rows, key: Key, from: nat)
    requires Dense(rows) && from <= |Stream(rows, key)|
    ensures Stream(rows, key)[..from] + SelectFrom(rows, key, from) == Stream(rows, key)
    ensures Consecutive(from, SelectFrom(rows, key, from))
  {
    SelectIsTail(rows, key, from);
    StreamIsStored(rows, key);
  }

  lemma TailKeeps<S, P>(m: Model<S, P>, w: World<S, P>, who: nat)
    requires Inv(w) && In(w, who) && w.instances[who].phase.Restoring?
    ensures Inv(TailOf(m, w, who)) && TailOf(m, w, who).rows == w.rows
  {
    var i := w.instances[who];
    RestoredPlusTail(w.rows, w.raises, i);
    var tail := SelectFrom(w.rows, i.agg.key, i.agg.version);
    ReplayVersion(m.apply, i.agg, tail);
    var r := Replay(m.apply, i.agg, tail);
    if !r.failed {
      LoadedOk(w.rows, w.raises, r.agg);
      Assemble(w, Put(w, who, Instance(r.agg, Idle, i.history + tail)), who);
    }
  }

  lemma RaiseKeeps<S, P>(w: World<S, P>, who: nat, uid: string, kind: string, data: string, state: S)
    requires Inv(w) && In(w, who) && w.instances[who].phase.Idle?
    ensures Inv(RaiseOf(w, who, uid, kind, data, state)) && RaiseOf(w, who, uid, kind, data, state).rows == w.rows
  {
    var v := RaiseOf(w, who, uid, kind, data, state);
    var i, i' := w.instances[who], v.instances[who];
    assert i'.history[..Committed(i')] == i.history[..Committed(i)];
    forall j | Base(i') <= j < |i'.history|
      ensures RaisedAt(v.raises, i'.history, j)
    {
      if j < |i.history| {
        assert RaisedAt(w.raises, i.history, j);
        assert i'.history[..j] == i.history[..j];
      } else {
        assert i'.history[..j] == i.history;
      }
    }
    Assemble(w, v, who);
  }

  lemma BeginKeeps<S, P>(w: World<S, P>, who: nat)
    requires Inv(w) && In(w, who) && w.instances[who].phase.Idle?
    ensures Inv(BeginOf(w, who)) && BeginOf(w, who).rows == w.rows
  {
    var i, v := w.instances[who], BeginOf(w, who);
    assert v.instances[who].history[..Committed(v.instances[who])] == i.history[..Committed(i)];
    Assemble(w, v, who);
  }

  /** A successful insert extends exactly the prefix that the instance already knows to be stored. */
  lemma InsertGrows(w: Rows, raises: set<Raise>, i: Instance, fault: Fault)
    requires Dense(w) && InstanceOk(w, raises, i) && i.phase.Saving?
    ensures var c := Committed(i);
            var e := i.history[c];
            var r := Insert(w, e, fault);
            && e == i.agg.uncommitted[i.phase.next]
            && Dense(r.rows) && Extends(r.rows, w)
            && (forall s :: s in r.rows && s !in w ==> Attributed(r.rows, raises, s))
            && Stored(r.rows, i.agg.key, i.history[..c])
            && (!r.failed ==> Stored(r.rows, i.agg.key, i.history[..c + 1]))
  {
    var c := Committed(i);
    var e := i.history[c];
    var r := Insert(w, e, fault);
    if r.rows != w {
      NewRow(w, i, c);
      assert RaisedAt(raises, i.history, c);
      StoredShorter(r.rows, e.key, i.history[..c + 1], c);
      assert i.history[..c + 1][..c] == i.history[..c];
      assert Attributed(r.rows, raises, Slot(e.key, e.version));
    }
  }

  /** The instance after its insert, with an error or without. */
  lemma InsertedOk<S, P>(w: World<S, P>, who: nat, fault: Fault)
    requires Inv(w) && In(w, who) && w.instances[who].phase.Saving?
    ensures var v := InsertOf(w, who, fault); InstanceOk(v.rows, v.raises, v.instances[who])
  {
    var i, v := w.instances[who], InsertOf(w, who, fault);
    var c := Committed(i);
    InsertGrows(w.rows, w.raises, i, fault);
    InsertedStored(w, who, fault);
  }

  /** After an error the instance knows what it knew when it began to save; after a success, one event more. */
  lemma CommittedAfter<S, P>(w: World<S, P>, who: nat, fault: Fault)
    requires Inv(w) && In(w, who) && w.instances[who].phase.Saving?
    ensures var i := w.instances[who];
            var d := InsertOf(w, who, fault).instances[who];
            && d.history == i.history && d.agg.key == i.agg.key
            && Committed(d) == (if Insert(w.rows, i.history[Committed(i)], fault).failed then Base(i)
                                else Committed(i) + 1)
  {
  }

  lemma InsertedStored<S, P>(w: World<S, P>, who: nat, fault: Fault)
    requires Inv(w) && In(w, who) && w.instances[who].phase.Saving?
    ensures var v := InsertOf(w, who, fault);
            var i := v.instances[who];
            0 <= Committed(i) <= |i.history| && Stored(v.rows, i.agg.key, i.history[..Committed(i)])
  {
    var i, v := w.instances[who], InsertOf(w, who, fault);
    InsertGrows(w.rows, w.raises, i, fault);
    CommittedAfter(w, who, fault);
    StoredShorter(v.rows, i.agg.key, i.history[..Committed(i)], Base(i));
    assert i.history[..Committed(i)][..Base(i)] == i.history[..Base(i)];
  }

  lemma InsertKeeps<S, P>(w: World<S, P>, who: nat, fault: Fault)
    requires Inv(w) && In(w, who) && w.instances[who].phase.Saving?
    ensures Inv(InsertOf(w, who, fault)) && Extends(InsertOf(w, who, fault).rows, w.rows)
  {
    InsertGrows(w.rows, w.raises, w.instances[who], fault);
    InsertedOk(w, who, fault);
    Assemble(w, InsertOf(w, who, fault), who);
  }

  lemma StoredShorter(rows: Rows, key: Key, h: seq<Event>, n: nat)
    requires n <= |h| && Stored(rows, key, h)
    ensures Stored(rows, key, h[..n])
  {
    forall j | 0 <= j < n
      ensures HoldsAt(rows, key, h[..n], j)
    {
      assert HoldsAt(rows, key, h, j);
    }
  }

  lemma NewRow<S>(rows: Rows, i: Instance<S>, c: nat)
    requires Dense(rows) && Consistent(i) && c < |i.history|
    requires Stored(rows, i.agg.key, i.history[..c]) && Slot(i.agg.key, c + 1) !in rows
    ensures var more := rows[Slot(i.agg.key, c + 1) := i.history[c]];
            Dense(more) && Stored(more, i.agg.key, i.history[..c + 1])
  {
    var slot := Slot(i.agg.key, c + 1);
    var more := rows[slot := i.history[c]];
    var h := i.history[..c + 1];
    forall j | 0 <= j < |h|
      ensures HoldsAt(more, i.agg.key, h, j)
    {
      assert j < c ==> HoldsAt(rows, i.agg.key, i.history[..c], j);
    }
    forall s, v | s in more && 1 <= v < s.version
      ensures Slot(s.key, v) in more
    {
      if s == slot {
        assert HoldsAt(rows, i.agg.key, i.history[..c], v - 1);
      } else {
        assert s in rows;
        assert Slot(s.key, v) in rows;
      }
    }
  }

  lemma WriteKeeps<S, P>(m: Model<S, P>, w: World<S, P>, who: nat, fault: Fault)
    requires m.interval != 0 && Inv(w) && In(w, who) && w.instances[who].phase.Saved?
    ensures Inv(WriteOf(m, w, who, fault)) && WriteOf(m, w, who, fault).rows == w.rows
  {
    var i := w.instances[who];
    var i' := i.(phase := Idle);
    assert i.history[..Committed(i)] == i.history && i'.history[..Committed(i')] == i.history;
    Assemble(w, Put(w, who, i'), who);
  }

  lemma {:induction false} CreateKeeps<S, P>(m: Model<S, P>, w: World<S, P>, who: nat, key: Key)
    requires Inv(w)
    ensures Inv(Put(w, who, Instance(Fresh(m, key), Idle, [])))
    ensures Put(w, who, Instance(Fresh(m, key), Idle, [])).rows == w.rows
  {
    var i := Instance(Fresh(m, key), Idle, []);
    assert i.history[..Committed(i)] == [];
    Assemble(w, Put(w, who, i), who);
  }

  /** Every step keeps the invariant and only ever adds rows. */
  lemma {:induction false} StepKeeps<S, P>(m: Model<S, P>, w: World<S, P>, step: Step<S>)
    requires m.interval != 0 && Inv(w) && Identified(step)
    ensures Inv(Next(m, w, step))
    ensures Extends(Next(m, w, step).rows, w.rows)
  {
    match step
    case Create(who, key) => CreateKeeps(m, w, who, key);
    case Load(who, key, _) => LoadKeeps(m, w, who, key);
    case ReadSnapshot(who, key, _) => if key in w.snaps { RestoreKeeps(m, w, who, key); }
    case ReadTail(who) => if In(w, who) && w.instances[who].phase.Restoring? { TailKeeps(m, w, who); }
    case RaiseEvent(who, uid, kind, data, state) =>
      if In(w, who) && w.instances[who].phase.Idle? { RaiseKeeps(w, who, uid, kind, data, state); }
    case BeginSave(who) => if In(w, who) && w.instances[who].phase.Idle? { BeginKeeps(w, who); }
    case InsertNext(who, fault) => if In(w, who) && w.instances[who].phase.Saving? { InsertKeeps(w, who, fault); }
    case WriteSnapshot(who, fault) => if In(w, who) && w.instances[who].phase.Saved? { WriteKeeps(m, w, who, fault); }
  }

  lemma {:induction false} RunKeeps<S, P>(m: Model<S, P>, w: World<S, P>, steps: seq<Step<S>>)
    requires m.interval != 0 && Inv(w)
    requires forall i :: 0 <= i < |steps| ==> Identified(steps[i])
    ensures Inv(Run(m, w, steps)) && Extends(Run(m, w, steps).rows, w.rows)
    decreases |steps|
  {
    if steps != [] {
      StepKeeps(m, w, steps[0]);
      RunKeeps(m, Next(m, w, steps[0]), steps[1..]);
    }
  }

  // ---------------------------------------------------------------- What every run guarantees

  /** Every event of the stream has its position as version and was raised on top of exactly the events before it. */
  ghost predicate Sequenced(stream: seq<Event>, raises: set<Raise>) {
    forall k {:trigger stream[k]} :: 0 <= k < |stream| ==>
      stream[k].version == k + 1 && Raise(stream[..k], stream[k]) in raises
  }

  lemma InvSequenced<S, P>(w: World<S, P>, key: Key)
    requires Inv(w)
    ensures Sequenced(Stream(w.rows, key), w.raises)
  {
    var stream := Stream(w.rows, key);
    forall k | 0 <= k < |stream|
      ensures stream[k].version == k + 1 && Raise(stream[..k], stream[k]) in w.raises
    {
      StreamAt(w.rows, key, 0, k);
      var h :| |h| == k && Stored(w.rows, key, h) && Raise(h, stream[k]) in w.raises;
      StoredIsPrefix(w.rows, key, h);
      assert h == stream[..k];
    }
  }

  /** The `i`-th step of the schedule is the RaiseEvent call that made `e`: with that call's identifier, kind and data,
      on an instance whose history at that moment was `h`. */
  ghost predicate RaisedBy<S, P>(m: Model<S, P>, steps: seq<Step<S>>, i: nat, h: seq<Event>, e: Event)
    requires m.interval != 0
  {
    && i < |steps| && steps[i].RaiseEvent?
    && var w := Run(m, Start(), steps[..i]);
       && In(w, steps[i].who) && w.instances[steps[i].who].phase.Idle? && w.instances[steps[i].who].history == h
       && e.key == w.instances[steps[i].who].agg.key && e.version == |h| + 1
       && e.uid == steps[i].uid && e.kind == steps[i].kind && e.data == steps[i].data
  }

  lemma {:induction false} RaisesAreCalls<S, P>(m: Model<S, P>, steps: seq<Step<S>>, r: Raise)
    requires m.interval != 0 && forall i :: 0 <= i < |steps| ==> Identified(steps[i])
    requires r in Run(m, Start(), steps).raises
    ensures exists i: nat :: RaisedBy(m, steps, i, r.before, r.event)
    decreases |steps|
  {
    if steps != [] {
      var n := |steps| - 1;
      var front := steps[..n];
      LastStep(m, steps);
      var w := Run(m, Start(), front);
      if r in w.raises {
        RaisesAreCalls(m, front, r);
        var i: nat :| RaisedBy(m, front, i, r.before, r.event);
        assert front[..i] == steps[..i];
        assert RaisedBy(m, steps, i, r.before, r.event);
      } else {
        RunKeeps(m, Start(), front);
        NewRaise(m, w, steps[n], r);
        assert RaisedBy(m, steps, n, r.before, r.event);
      }
    }
  }

  lemma LastStep<S, P>(m: Model<S, P>, steps: seq<Step<S>>)
    requires m.interval != 0 && steps != []
    ensures Run(m, Start(), steps) == Next(m, Run(m, Start(), steps[..|steps| - 1]), steps[|steps| - 1])
  {
    var front, last := steps[..|steps| - 1], steps[|steps| - 1];
    assert steps == front + [last];
    RunConcat(m, Start(), front, [last]);
    assert [last][1..] == [];
  }

  lemma NewRaise<S, P>(m: Model<S, P>, w: World<S, P>, step: Step<S>, r: Raise)
    requires m.interval != 0 && Inv(w) && r in Next(m, w, step).raises && r !in w.raises
    ensures step.RaiseEvent? && In(w, step.who) && w.instances[step.who].phase.Idle?
    ensures var i := w.instances[step.who];
            && r.before == i.history && r.event.key == i.agg.key && r.event.version == |i.history| + 1
            && r.event.uid == step.uid && r.event.kind == step.kind && r.event.data == step.data
  {
    assert step.RaiseEvent?;
    assert InstanceOk(w.rows, w.raises, w.instances[step.who]);
  }

  ghost predicate TracedAt<S, P>(m: Model<S, P>, steps: seq<Step<S>>, h: seq<Event>, e: Event)
    requires m.interval != 0
  {
    exists i: nat :: RaisedBy(m, steps, i, h, e)
  }

  /** Every event of the stream was made by a RaiseEvent call of the schedule on exactly the events before it. */
  ghost predicate Traced<S, P>(m: Model<S, P>, steps: seq<Step<S>>, stream: seq<Event>)
    requires m.interval != 0
  {
    forall k :: 0 <= k < |stream| ==> TracedAt(m, steps, stream[..k], stream[k])
  }

  lemma StreamTraced<S, P>(m: Model<S, P>, steps: seq<Step<S>>, stream: seq<Event>)
    requires m.interval != 0 && forall i :: 0 <= i < |steps| ==> Identified(steps[i])
    requires Sequenced(stream, Run(m, Start(), steps).raises)
    ensures Traced(m, steps, stream)
  {
    var raises := Run(m, Start(), steps).raises;
    forall h, e | Raise(h, e) in raises
      ensures TracedAt(m, steps, h, e)
    {
      RaisesAreCalls(m, steps, Raise(h, e));
    }
    forall k | 0 <= k < |stream|
      ensures TracedAt(m, steps, stream[..k], stream[k])
    {
      assert Raise(stream[..k], stream[k]) in raises;
    }
  }

  /** For every schedule: each stream is append-only, its versions are 1..m, and each of its events carries the
      identifier, kind and data of a RaiseEvent call in the schedule, made on an instance whose own history was exactly
      the stored events before it. */
  lemma {:induction false} HistoryTheorem<S, P>(m: Model<S, P>, earlier: seq<Step<S>>, later: seq<Step<S>>, key: Key)
    requires m.interval != 0
    requires forall i :: 0 <= i < |earlier| ==> Identified(earlier[i])
    requires forall i :: 0 <= i < |later| ==> Identified(later[i])
    ensures var w := Run(m, Start(), earlier);
            var v := Run(m, Start(), earlier + later);
            && Stream(w.rows, key) <= Stream(v.rows, key) && Sequenced(Stream(v.rows, key), v.raises)
            && Traced(m, earlier + later, Stream(v.rows, key))
  {
    var w := Run(m, Start(), earlier);
    RunKeeps(m, Start(), earlier);
    RunKeeps(m, w, later);
    RunConcat(m, Start(), earlier, later);
    var v := Run(m, w, later);
    StreamIsStored(w.rows, key);
    StoredExtends(v.rows, w.rows, key, Stream(w.rows, key));
    StoredIsPrefix(v.rows, key, Stream(w.rows, key));
    InvSequenced(v, key);
    StreamTraced(m, earlier + later, Stream(v.rows, key));
  }
}
