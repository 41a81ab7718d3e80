/** The event table, the aggregates and the two repositories that load and save them. */
module EventStore {
  import opened Ordering

  // ---------------------------------------------------------------- The table

  /** The pair (aggregate_id, aggregate_type). */
  datatype Key = Key(id: string, kind: string)

  datatype Event = Event(uid: string, key: Key, kind: string, version: int, data: string)

  /** UNIQUE (aggregate_id, aggregate_type, version): a row is addressed by these three columns. */
  datatype Slot = Slot(key: Key, version: int)

  type Rows = map<Slot, Event>

  /** What the connection does to one statement: nothing unusual, an error before it runs, or an
      error after it has taken effect. */
  datatype Fault = NoFault | NotExecuted | ReplyLost

  datatype Written = Written(rows: Rows, failed: bool)

  predicate Admissible(rows: Rows, e: Event) {
    Slot(e.key, e.version) !in rows && forall s :: s in rows ==> rows[s].uid != e.uid
  }

  /** One INSERT, atomic and subject to the primary key and the unique constraint. */
  function Insert(rows: Rows, e: Event, fault: Fault): Written {
    if fault.NotExecuted? || !Admissible(rows, e) then Written(rows, true)
    else Written(rows[Slot(e.key, e.version) := e], fault.ReplyLost?)
  }

  /** The inserts of one Append, up to and including the first that reports an error. */
  function AppendAll(rows: Rows, events: seq<Event>, faults: seq<Fault>): Written
    requires |faults| == |events|
    decreases |events|
  {
    if events == [] then Written(rows, false)
    else
      var first := Insert(rows, events[0], faults[0]);
      if first.failed then first else AppendAll(first.rows, events[1..], faults[1..])
  }

  function Versions(rows: Rows, key: Key, from: int): set<int> {
    set s | s in rows && s.key == key && s.version > from :: s.version
  }

  /** SELECT ... WHERE key AND version > from ORDER BY version ASC. */
  function SelectFrom(rows: Rows, key: Key, from: int): seq<Event> {
    var vs := Ascending(Versions(rows, key, from));
    AscendingFacts(Versions(rows, key, from));
    assert forall i :: 0 <= i < |vs| ==> vs[i] in Versions(rows, key, from);
    seq(|vs|, i requires 0 <= i < |vs| => rows[Slot(key, vs[i])])
  }

  // ---------------------------------------------------------------- Aggregates

  datatype Aggregate<S> = Aggregate(key: Key, version: int, uncommitted: seq<Event>, state: S)

  /** The outcome of a handler, of Apply or of FromSnapshot. */
  datatype Handled<S> = Handled(state: S, failed: bool)

  datatype Loaded<S> = Loaded(agg: Aggregate<S>, failed: bool)

  /** What the application supplies: the factory's fresh state, Apply, the dispatch to registered
      handlers (which falls back to Apply), and the snapshot conversions. */
  datatype Model<!S, !P> = Model(
    initial: S,
    apply: (S, Event) -> Handled<S>,
    handle: (S, Event) -> Handled<S>,
    toSnapshot: S -> P,
    fromSnapshot: P -> Handled<S>,
    interval: int)

  function NewEvent<S>(agg: Aggregate<S>, uid: string, kind: string, data: string): Event {
    Event(uid, agg.key, kind, agg.version + 1, data)
  }

  function Raised<S>(agg: Aggregate<S>, e: Event): Aggregate<S> {
    agg.(version := agg.version + 1, uncommitted := agg.uncommitted + [e])
  }

  /** Folding events into an aggregate, stopping at the first one that cannot be applied. */
  function Replay<S>(step: (S, Event) -> Handled<S>, agg: Aggregate<S>, events: seq<Event>): Loaded<S>
    decreases |events|
  {
    if events == [] then Loaded(agg, false)
    else
      var h := step(agg.state, events[0]);
      if h.failed then Loaded(agg.(state := h.state), true)
      else Replay(step, agg.(state := h.state, version := events[0].version), events[1..])
  }

  function Fresh<S, P>(m: Model<S, P>, own: Key): Aggregate<S> {
    Aggregate(own, 0, [], m.initial)
  }

  /** AggregateRepository.Load: the whole stream through the registered handlers. */
  function FullLoad<S, P>(m: Model<S, P>, rows: Rows, key: Key, own: Key): Loaded<S> {
    Replay(m.handle, Fresh(m, own), SelectFrom(rows, key, 0))
  }

  datatype Snapshot<P> = Snapshot(version: int, state: P)

  predicate Due<S, P>(m: Model<S, P>, agg: Aggregate<S>)
    requires m.interval != 0
  {
    agg.version % m.interval == 0
  }

  /** The upsert at the end of SnapshotRepository.Save: the newer row replaces the older one, whatever the versions. */
  function Upsert<S, P>(m: Model<S, P>, snaps: map<Key, Snapshot<P>>, agg: Aggregate<S>,
                        fault: Fault): map<Key, Snapshot<P>>
    requires m.interval != 0
  {
    if Due(m, agg) && !fault.NotExecuted? then snaps[agg.key := Snapshot(agg.version, m.toSnapshot(agg.state))]
    else snaps
  }

  /** The tail loop of SnapshotRepository.Load, which calls Apply and not the handlers. */
  function TailLoad<S, P>(m: Model<S, P>, rows: Rows, key: Key, agg: Aggregate<S>): Loaded<S> {
    Replay(m.apply, agg, SelectFrom(rows, key, agg.version))
  }

  function Restore<S, P>(m: Model<S, P>, snap: Snapshot<P>, own: Key): Loaded<S> {
    var h := m.fromSnapshot(snap.state);
    if h.failed then Loaded(Fresh(m, own).(state := h.state), true)
    else Loaded(Aggregate(own, snap.version, [], h.state), false)
  }

  /** SnapshotRepository.Load over a table and a snapshot table that nobody changes meanwhile. */
  function SnapshotLoad<S, P>(m: Model<S, P>, rows: Rows, snaps: map<Key, Snapshot<P>>, key: Key, own: Key): Loaded<S> {
    if key in snaps then
      var r := Restore(m, snaps[key], own);
      if r.failed then r else TailLoad(m, rows, key, r.agg)
    else FullLoad(m, rows, key, own)
  }

  // ---------------------------------------------------------------- The objects

  class Store {
    var rows: Rows

    constructor ()
      ensures rows == map[]
    {
      rows := map[];
    }

    method ExecInsert(e: Event, fault: Fault) returns (failed: bool)
      modifies this
      ensures Written(rows, failed) == Insert(old(rows), e, fault)
    {
      var r := Insert(rows, e, fault);
      rows, failed := r.rows, r.failed;
    }

    method Append(events: seq<Event>, faults: seq<Fault>) returns (failed: bool)
      requires |faults| == |events|
      modifies this
      ensures Written(rows, failed) == AppendAll(old(rows), events, faults)
    {
      for i := 0 to |events|
        invariant AppendAll(old(rows), events, faults) == AppendAll(rows, events[i..], faults[i..])
      {
        failed := ExecInsert(events[i], faults[i]);
        if failed {
          return;
        }
        assert events[i..][1..] == events[i + 1..] && faults[i..][1..] == faults[i + 1..];
      }
      return false;
    }

    /** The row cursor yields the matching versions in ascending order. `answers` tells whether the query, its scans
        and its iteration work. */
    method LoadFromVersion(key: Key, from: int, answers: bool) returns (events: seq<Event>, failed: bool)
      ensures failed <==> !answers
      ensures answers ==> events == SelectFrom(rows, key, from)
    {
      if !answers {
        return [], true;
      }
      var cursor := Ascending(Versions(rows, key, from));
      AscendingFacts(Versions(rows, key, from));
      assert forall i :: 0 <= i < |cursor| ==> cursor[i] in Versions(rows, key, from);
      events := [];
      for i := 0 to |cursor|
        invariant events == SelectFrom(rows, key, from)[..i]
      {
        events := events + [rows[Slot(key, cursor[i])]];
      }
      failed := false;
    }
  }

  class BaseAggregate<S> {
    var key: Key
    var version: int
    var uncommitted: seq<Event>
    var state: S

    constructor (key: Key, state: S)
      ensures Value() == Aggregate(key, 0, [], state)
    {
      this.key, version, uncommitted, this.state := key, 0, [], state;
    }

    function Value(): Aggregate<S>
      reads this
    {
      Aggregate(key, version, uncommitted, state)
    }

    method RaiseEvent(uid: string, kind: string, data: string) returns (e: Event)
      modifies this
      ensures e == NewEvent(old(Value()), uid, kind, data)
      ensures e.uid == uid && e.kind == kind && e.data == data && e.key == old(key) && e.version == old(version) + 1
      ensures Value() == Raised(old(Value()), e)
    {
      version := version + 1;
      e := Event(uid, key, kind, version, data);
      uncommitted := uncommitted + [e];
    }
  }

  class SnapshotStore<P> {
    var snaps: map<Key, Snapshot<P>>
  }

  class AggregateRepository<!S, !P> {
    const store: Store
    const model: Model<S, P>

    constructor (store: Store, model: Model<S, P>)
      ensures this.store == store && this.model == model
    {
      this.store, this.model := store, model;
    }

    method Fold(agg: BaseAggregate<S>, step: (S, Event) -> Handled<S>, events: seq<Event>) returns (failed: bool)
      modifies agg
      ensures Loaded(agg.Value(), failed) == Replay(step, old(agg.Value()), events)
    {
      for i := 0 to |events|
        invariant Replay(step, old(agg.Value()), events) == Replay(step, agg.Value(), events[i..])
      {
        var h := step(agg.state, events[i]);
        agg.state := h.state;
        if h.failed {
          return true;
        }
        agg.version := events[i].version;
        assert events[i..][1..] == events[i + 1..];
      }
      return false;
    }

    /** `own` is the identity that the factory gives the aggregate; Load does not set it. */
    method Load(key: Key, own: Key, answers: bool) returns (agg: BaseAggregate<S>, failed: bool)
      ensures fresh(agg)
      ensures Loaded(agg.Value(), failed)
           == if answers then FullLoad(model, store.rows, key, own) else Loaded(Fresh(model, own), true)
    {
      agg := new BaseAggregate(own, model.initial);
      var events;
      events, failed := store.LoadFromVersion(key, 0, answers);
      if failed {
        return;
      }
      failed := Fold(agg, model.handle, events);
    }

    method Save(agg: BaseAggregate<S>, faults: seq<Fault>) returns (failed: bool)
      requires |faults| == |agg.uncommitted|
      modifies store, agg
      ensures Written(store.rows, failed) == AppendAll(old(store.rows), old(agg.uncommitted), faults)
      ensures agg.Value() == if failed then old(agg.Value()) else old(agg.Value()).(uncommitted := [])
    {
      if |agg.uncommitted| == 0 {
        return false;
      }
      failed := store.Append(agg.uncommitted, faults);
      if failed {
        return;
      }
      agg.uncommitted := [];
    }
  }

  class SnapshotRepository<!S, !P> {
    const base: AggregateRepository<S, P>
    const snapshots: SnapshotStore<P>

    constructor (base: AggregateRepository<S, P>, snapshots: SnapshotStore<P>)
      ensures this.base == base && this.snapshots == snapshots
    {
      this.base, this.snapshots := base, snapshots;
    }

    /** If the snapshot cannot be read, the whole stream is; if the events cannot be read, the load fails with what
        it has so far. */
    method Load(key: Key, own: Key, readable: bool, answers: bool) returns (agg: BaseAggregate<S>, failed: bool)
      ensures Loaded(agg.Value(), failed)
           == if !answers then
                Loaded(if readable && key in snapshots.snaps then Restore(base.model, snapshots.snaps[key], own).agg
                       else Fresh(base.model, own), true)
              else if readable then SnapshotLoad(base.model, base.store.rows, snapshots.snaps, key, own)
              else FullLoad(base.model, base.store.rows, key, own)
    {
      agg := new BaseAggregate(own, base.model.initial);
      if readable && key in snapshots.snaps {
        var snap := snapshots.snaps[key];
        var h := base.model.fromSnapshot(snap.state);
        agg.state := h.state;
        if h.failed {
          return agg, true;
        }
        agg.version := snap.version;
        var events;
        events, failed := base.store.LoadFromVersion(key, snap.version, answers);
        if failed {
          return;
        }
        failed := base.Fold(agg, base.model.apply, events);
      } else {
        agg, failed := base.Load(key, own, answers);
      }
    }

    /** An interval of zero makes the remainder panic. */
    method Save(agg: BaseAggregate<S>, faults: seq<Fault>, upsertFault: Fault) returns (failed: bool)
      requires |faults| == |agg.uncommitted| && base.model.interval != 0
      modifies base.store, agg, snapshots
      ensures var w := AppendAll(old(base.store.rows), old(agg.uncommitted), faults);
              && base.store.rows == w.rows
              && agg.Value() == (if w.failed then old(agg.Value()) else old(agg.Value()).(uncommitted := []))
              && snapshots.snaps == (if w.failed then old(snapshots.snaps)
                                     else Upsert(base.model, old(snapshots.snaps), agg.Value(), upsertFault))
              && failed == (w.failed || (Due(base.model, agg.Value()) && !upsertFault.NoFault?))
    {
      failed := base.Save(agg, faults);
      if failed {
        return;
      }
      if agg.version % base.model.interval == 0 {
        if !upsertFault.NotExecuted? {
          snapshots.snaps := snapshots.snaps[agg.key := Snapshot(agg.version, base.model.toSnapshot(agg.state))];
        }
        failed := !upsertFault.NoFault?;
      }
    }
  }
}
