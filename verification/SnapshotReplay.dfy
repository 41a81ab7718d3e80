/** A snapshot is a shortcut: loading it and the events after it is the same as replaying everything. */
module SnapshotReplay {
  import opened EventStore
  import opened EventHistory

  /** The fold of events over a bare state. */
  function Fold<S>(step: (S, Event) -> Handled<S>, s: S, events: seq<Event>): Handled<S>
    decreases |events|
  {
    if events == [] then Handled(s, false)
    else
      var h := step(s, events[0]);
      if h.failed then h else Fold(step, h.state, events[1..])
  }

  lemma {:induction false} FoldConcat<S>(step: (S, Event) -> Handled<S>, s: S, a: seq<Event>, b: seq<Event>)
    requires !Fold(step, s, a).failed
    ensures Fold(step, s, a + b) == Fold(step, Fold(step, s, a).state, b)
    decreases |a|
  {
    if a == [] {
      assert a + b == b;
    } else {
      FoldConcat(step, step(s, a[0]).state, a[1..], b);
      assert (a + b)[1..] == a[1..] + b;
    }
  }

  lemma {:induction false} ReplayIsFold<S>(step: (S, Event) -> Handled<S>, agg: Aggregate<S>, events: seq<Event>)
    ensures var r := Replay(step, agg, events);
            Handled(r.agg.state, r.failed) == Fold(step, agg.state, events)
    decreases |events|
  {
    if events != [] && !step(agg.state, events[0]).failed {
      ReplayIsFold(step, agg.(state := step(agg.state, events[0]).state, version := events[0].version), events[1..]);
    }
  }

  lemma {:induction false} ReplayConcat<S>(step: (S, Event) -> Handled<S>, agg: Aggregate<S>, a: seq<Event>,
                                           b: seq<Event>)
    requires !Replay(step, agg, a).failed
    ensures Replay(step, agg, a + b) == Replay(step, Replay(step, agg, a).agg, b)
    decreases |a|
  {
    if a == [] {
      assert a + b == b;
    } else {
      ReplayConcat(step, agg.(state := step(agg.state, a[0]).state, version := a[0].version), a[1..], b);
      assert (a + b)[1..] == a[1..] + b;
    }
  }

  ghost predicate HandlersAgree<S(!new), P>(m: Model<S, P>) {
    forall s, e :: m.handle(s, e) == m.apply(s, e)
  }

  ghost predicate SnapshotsInvert<S(!new), P>(m: Model<S, P>) {
    forall s :: m.fromSnapshot(m.toSnapshot(s)) == Handled(s, false)
  }

  lemma {:induction false} ReplayAgrees<S(!new), P>(m: Model<S, P>, agg: Aggregate<S>, events: seq<Event>)
    requires HandlersAgree(m)
    ensures Replay(m.handle, agg, events) == Replay(m.apply, agg, events)
    decreases |events|
  {
    if events != [] {
      var h := m.apply(agg.state, events[0]);
      assert m.handle(agg.state, events[0]) == h;
      ReplayAgrees(m, agg.(state := h.state, version := events[0].version), events[1..]);
    }
  }

  /** When an instance raises an event, its code applies it to its fields as Apply would. */
  predicate Applied<S(==), P>(m: Model<S, P>, w: World<S, P>, step: Step<S>) {
    step.RaiseEvent? && step.who in w.instances ==>
      var i := w.instances[step.who];
      m.apply(i.agg.state, NewEvent(i.agg, step.uid, step.kind, step.data)) == Handled(step.state, false)
  }

  ghost predicate AllApplied<S, P>(m: Model<S, P>, w: World<S, P>, steps: seq<Step<S>>)
    requires m.interval != 0
    decreases |steps|
  {
    steps == [] || (Applied(m, w, steps[0]) && AllApplied(m, Next(m, w, steps[0]), steps[1..]))
  }

  ghost predicate FoldedInstance<S, P>(m: Model<S, P>, i: Instance<S>) {
    Fold(m.apply, m.initial, i.history) == Handled(i.agg.state, false)
  }

  ghost predicate FoldedSnapshot<S, P>(m: Model<S, P>, origin: seq<Event>, snap: Snapshot<P>) {
    !Fold(m.apply, m.initial, origin).failed && snap.state == m.toSnapshot(Fold(m.apply, m.initial, origin).state)
  }

  ghost predicate Folded<S, P>(m: Model<S, P>, w: World<S, P>) {
    && (forall a :: a in w.instances ==> FoldedInstance(m, w.instances[a]))
    && w.snaps.Keys == w.origins.Keys
    && (forall k :: k in w.snaps ==> FoldedSnapshot(m, w.origins[k], w.snaps[k]))
  }

  lemma LoadFolds<S(!new), P>(m: Model<S, P>, w: World<S, P>, who: nat, key: Key, own: Key)
    requires HandlersAgree(m) && Folded(m, w)
    ensures Folded(m, LoadOf(m, w, who, key, own))
  {
    var stream := SelectFrom(w.rows, key, 0);
    ReplayAgrees(m, Fresh(m, own), stream);
    ReplayIsFold(m.apply, Fresh(m, own), stream);
  }

  lemma RestoreFolds<S(!new), P>(m: Model<S, P>, w: World<S, P>, who: nat, key: Key, own: Key)
    requires SnapshotsInvert(m) && Folded(m, w) && key in w.snaps
    ensures Folded(m, RestoreOf(m, w, who, key, own))
  {
    var s := Fold(m.apply, m.initial, w.origins[key]).state;
    assert FoldedSnapshot(m, w.origins[key], w.snaps[key]);
    assert m.fromSnapshot(m.toSnapshot(s)) == Handled(s, false);
  }

  lemma TailFolds<S, P>(m: Model<S, P>, w: World<S, P>, who: nat)
    requires Folded(m, w) && In(w, who) && w.instances[who].phase.Restoring?
    ensures Folded(m, TailOf(m, w, who))
  {
    var i := w.instances[who];
    assert FoldedInstance(m, i);
    var tail := SelectFrom(w.rows, i.phase.source, i.agg.version);
    ReplayIsFold(m.apply, i.agg, tail);
    FoldConcat(m.apply, m.initial, i.history, tail);
  }

  lemma RaiseFolds<S, P>(m: Model<S, P>, w: World<S, P>, step: Step<S>)
    requires Folded(m, w) && step.RaiseEvent? && In(w, step.who) && Applied(m, w, step)
    ensures Folded(m, RaiseOf(w, step.who, step.uid, step.kind, step.data, step.state))
  {
    var i := w.instances[step.who];
    assert FoldedInstance(m, i);
    var e := NewEvent(i.agg, step.uid, step.kind, step.data);
    FoldConcat(m.apply, m.initial, i.history, [e]);
    assert [e][1..] == [];
    assert Fold(m.apply, i.agg.state, [e]) == Handled(step.state, false);
  }

  lemma BeginFolds<S, P>(m: Model<S, P>, w: World<S, P>, who: nat)
    requires Folded(m, w) && In(w, who)
    ensures Folded(m, BeginOf(w, who))
  {
    assert FoldedInstance(m, w.instances[who]);
  }

  lemma InsertFolds<S, P>(m: Model<S, P>, w: World<S, P>, who: nat, fault: Fault)
    requires Folded(m, w) && In(w, who) && w.instances[who].phase.Saving?
    ensures Folded(m, InsertOf(w, who, fault))
  {
    assert FoldedInstance(m, w.instances[who]);
  }

  lemma WriteFolds<S, P>(m: Model<S, P>, w: World<S, P>, who: nat, fault: Fault)
    requires m.interval != 0 && Folded(m, w) && In(w, who)
    ensures Folded(m, WriteOf(m, w, who, fault))
  {
    assert FoldedInstance(m, w.instances[who]);
  }

  lemma StepFolds<S(!new), P>(m: Model<S, P>, w: World<S, P>, step: Step<S>)
    requires m.interval != 0 && HandlersAgree(m) && SnapshotsInvert(m) && Folded(m, w) && Applied(m, w, step)
    ensures Folded(m, Next(m, w, step))
  {
    match step
    case Create(_, _) =>
    case Load(who, key, own) => LoadFolds(m, w, who, key, own);
    case ReadSnapshot(who, key, own) => if key in w.snaps { RestoreFolds(m, w, who, key, own); }
    case ReadTail(who) => if In(w, who) && w.instances[who].phase.Restoring? { TailFolds(m, w, who); }
    case RaiseEvent(who, _, _, _, _) => if In(w, who) && w.instances[who].phase.Idle? { RaiseFolds(m, w, step); }
    case BeginSave(who) => if In(w, who) { BeginFolds(m, w, who); }
    case InsertNext(who, fault) =>
      if In(w, who) && w.instances[who].phase.Saving? { InsertFolds(m, w, who, fault); }
    case WriteSnapshot(who, fault) => if In(w, who) { WriteFolds(m, w, who, fault); }
  }

  lemma {:induction false} RunFolds<S(!new), P>(m: Model<S, P>, w: World<S, P>, steps: seq<Step<S>>)
    requires m.interval != 0 && HandlersAgree(m) && SnapshotsInvert(m) && Folded(m, w) && AllApplied(m, w, steps)
    ensures Folded(m, Run(m, w, steps))
    decreases |steps|
  {
    if steps != [] {
      StepFolds(m, w, steps[0]);
      RunFolds(m, Next(m, w, steps[0]), steps[1..]);
    }
  }

  /** In a world in order, the snapshot is the fold of the stream up to its version. */
  lemma SnapshotIsPrefixFold<S(!new), P>(m: Model<S, P>, w: World<S, P>, key: Key)
    requires Inv(w) && Folded(m, w) && key in w.snaps
    ensures var v := w.snaps[key].version;
            0 <= v <= |Stream(w.rows, key)| && w.origins[key] == Stream(w.rows, key)[..v]
            && FoldedSnapshot(m, Stream(w.rows, key)[..v], w.snaps[key])
  {
    StoredIsPrefix(w.rows, key, w.origins[key]);
    assert FoldedSnapshot(m, w.origins[key], w.snaps[key]);
    assert w.origins[key] == Stream(w.rows, key)[..|w.origins[key]|];
  }

  /** Replaying a stream can be resumed at any version from the fold of what comes before. */
  lemma ReplayResumes<S(!new), P>(m: Model<S, P>, key: Key, own: Key, stream: seq<Event>, v: nat)
    requires HandlersAgree(m) && Numbered(key, stream) && v <= |stream|
    requires !Fold(m.apply, m.initial, stream[..v]).failed
    ensures Replay(m.handle, Fresh(m, own), stream)
         == Replay(m.apply, Aggregate(own, v, [], Fold(m.apply, m.initial, stream[..v]).state), stream[v..])
  {
    var start := Fresh(m, own);
    ReplayAgrees(m, start, stream);
    ReplayIsFold(m.apply, start, stream[..v]);
    ReplayVersion(m.apply, start, stream[..v]);
    assert stream[..v] + stream[v..] == stream;
    ReplayConcat(m.apply, start, stream[..v], stream[v..]);
  }

  lemma ShortcutIsFullLoad<S(!new), P>(m: Model<S, P>, w: World<S, P>, key: Key, own: Key)
    requires Inv(w) && Folded(m, w) && HandlersAgree(m) && SnapshotsInvert(m)
    ensures SnapshotLoad(m, w.rows, w.snaps, key, own) == FullLoad(m, w.rows, key, own)
  {
    if key in w.snaps {
      SnapshotIsPrefixFold(m, w, key);
      var stream, v := Stream(w.rows, key), w.snaps[key].version;
      var s := Fold(m.apply, m.initial, stream[..v]).state;
      assert m.fromSnapshot(m.toSnapshot(s)) == Handled(s, false);
      StreamIsStored(w.rows, key);
      ReplayResumes(m, key, own, stream, v);
      SelectIsTail(w.rows, key, v);
    }
  }

  /** A load that reads the snapshot first and the tail later, whatever others did in between, gives what a full
      load gives at the moment of the tail read. */
  lemma TailIsFullLoad<S(!new), P>(m: Model<S, P>, w: World<S, P>, who: nat)
    requires Inv(w) && Folded(m, w) && HandlersAgree(m)
    requires In(w, who) && w.instances[who].phase.Restoring?
    ensures var i := w.instances[who];
            TailLoad(m, w.rows, i.phase.source, i.agg) == FullLoad(m, w.rows, i.phase.source, i.agg.key)
  {
    var i := w.instances[who];
    var key, v := i.agg.key, |i.history|;
    assert InstanceOk(w.rows, w.raises, i) && FoldedInstance(m, i);
    assert i.history[..Committed(i)] == i.history;
    StoredIsPrefix(w.rows, key, i.history);
    StreamIsStored(w.rows, key);
    assert Stream(w.rows, key)[..v] == i.history;
    ReplayResumes(m, key, key, Stream(w.rows, key), v);
    SelectIsTail(w.rows, key, v);
    assert i.agg == Aggregate(key, v, [], i.agg.state);
  }

  /** The instance that the tail read leaves behind is the one that a full load would have made then. */
  lemma TailLikeLoad<S(!new), P>(m: Model<S, P>, w: World<S, P>, who: nat)
    requires Inv(w) && Folded(m, w) && HandlersAgree(m)
    requires In(w, who) && w.instances[who].phase.Restoring?
    ensures var key := w.instances[who].phase.source;
            TailOf(m, w, who) == if FullLoad(m, w.rows, key, key).failed then w.(instances := w.instances - {who})
                                 else LoadOf(m, w, who, key, key)
  {
    assert InstanceOk(w.rows, w.raises, w.instances[who]);
    TailIsFullLoad(m, w, who);
    RestoredPlusTail(w.rows, w.raises, w.instances[who]);
  }

  /** Over whole runs: after any steps, an instance that has read its snapshot and is about to read the tail ends
      up exactly as a full load at that moment would leave it. */
  lemma {:induction false} InterleavedLoadTheorem<S(!new), P>(m: Model<S, P>, steps: seq<Step<S>>, who: nat)
    requires m.interval != 0 && HandlersAgree(m) && SnapshotsInvert(m)
    requires forall i :: 0 <= i < |steps| ==> Identified(steps[i])
    requires AllApplied(m, Start(), steps)
    requires In(Run(m, Start(), steps), who) && Run(m, Start(), steps).instances[who].phase.Restoring?
    ensures var w := Run(m, Start(), steps);
            var key := w.instances[who].phase.source;
            TailOf(m, w, who) == if FullLoad(m, w.rows, key, key).failed then w.(instances := w.instances - {who})
                                 else LoadOf(m, w, who, key, key)
  {
    RunKeeps(m, Start(), steps);
    RunFolds(m, Start(), steps);
    TailLikeLoad(m, Run(m, Start(), steps), who);
  }

  /** The world has a new instance exactly if the load did not fail, and it is the one loaded. */
  ghost predicate Gained<S, P>(w: World<S, P>, v: World<S, P>, who: nat, r: Loaded<S>) {
    && (In(v, who) <==> !r.failed)
    && (In(v, who) ==> v.instances[who].agg == r.agg && v.instances[who].phase.Idle?)
    && v == w.(instances := v.instances) && v.instances - {who} == w.instances
  }

  lemma LoadGains<S, P>(m: Model<S, P>, w: World<S, P>, who: nat, key: Key, own: Key)
    requires !In(w, who)
    ensures Gained(w, LoadOf(m, w, who, key, own), who, FullLoad(m, w.rows, key, own))
  {
    assert w.instances - {who} == w.instances;
    assert LoadOf(m, w, who, key, own).instances - {who} == w.instances;
  }

  lemma ReadSteps<S, P>(m: Model<S, P>, w: World<S, P>, who: nat, key: Key, own: Key)
    requires m.interval != 0 && key in w.snaps && key in w.origins && !In(w, who)
    ensures var r := Restore(m, w.snaps[key], own);
            Next(m, Next(m, w, ReadSnapshot(who, key, own)), ReadTail(who))
            == if r.failed then w else TailOf(m, Put(w, who, Instance(r.agg, Restoring(key), w.origins[key])), who)
  {
  }

  /** SnapshotRepository.Load is the step Load, or the steps ReadSnapshot and ReadTail with nothing in between: a new
      instance comes out of it exactly if it does not fail, as the repository makes it. */
  lemma SnapshotLoadIsARun<S, P>(m: Model<S, P>, w: World<S, P>, who: nat, key: Key, own: Key)
    requires m.interval != 0 && w.snaps.Keys == w.origins.Keys && !In(w, who)
    ensures var v := if key in w.snaps then Next(m, Next(m, w, ReadSnapshot(who, key, own)), ReadTail(who))
                     else Next(m, w, Load(who, key, own));
            Gained(w, v, who, SnapshotLoad(m, w.rows, w.snaps, key, own))
  {
    assert w.instances - {who} == w.instances;
    if key in w.snaps {
      ReadSteps(m, w, who, key, own);
      var r := Restore(m, w.snaps[key], own);
      if !r.failed {
        TailAfterRestore(m, w, Put(w, who, Instance(r.agg, Restoring(key), w.origins[key])), who, key);
      }
    } else {
      LoadGains(m, w, who, key, own);
    }
  }

  lemma TailAfterRestore<S, P>(m: Model<S, P>, w: World<S, P>, v: World<S, P>, who: nat, key: Key)
    requires !In(w, who) && In(v, who) && v.instances[who].phase == Restoring(key)
    requires v == w.(instances := w.instances[who := v.instances[who]])
    ensures Gained(w, TailOf(m, v, who), who, TailLoad(m, w.rows, key, v.instances[who].agg))
  {
    assert v.instances - {who} == w.instances;
    assert TailOf(m, v, who).instances - {who} == w.instances;
  }

  /** A snapshot that FromSnapshot does not accept fails the load before any event is read. */
  lemma UnusableSnapshot<S, P>(m: Model<S, P>, rows: Rows, snaps: map<Key, Snapshot<P>>, key: Key, own: Key)
    requires key in snaps && m.fromSnapshot(snaps[key].state).failed
    ensures SnapshotLoad(m, rows, snaps, key, own)
         == Loaded(Aggregate(own, 0, [], m.fromSnapshot(snaps[key].state).state), true)
  {
  }

  // ---------------------------------------------------------------- When snapshots are taken

  function Times(n: int, interval: int): int {
    n * interval
  }

  ghost predicate Multiple(version: int, interval: int) {
    exists n :: version == Times(n, interval)
  }

  lemma {:induction false} FarFromZero(k: int, d: int)
    requires d > 0
    ensures k > 0 ==> k * d >= d
    ensures k < 0 ==> k * d <= -d
    decreases if k < 0 then -k else k
  {
    if k > 1 {
      FarFromZero(k - 1, d);
      assert k * d == (k - 1) * d + d;
    } else if k < -1 {
      FarFromZero(k + 1, d);
      assert k * d == (k + 1) * d - d;
    }
  }

  lemma SmallMultiple(k: int, d: int)
    requires 0 <= k * d < d
    ensures k == 0
  {
    FarFromZero(k, d);
  }

  lemma OneQuotient(interval: int, n: int)
    requires interval != 0
    ensures (n * interval) % interval == 0
  {
    var q, r := (n * interval) / interval, (n * interval) % interval;
    assert n * interval == interval * q + r;
    if interval > 0 {
      assert (n - q) * interval == r;
      SmallMultiple(n - q, interval);
    } else {
      assert (q - n) * -interval == r;
      SmallMultiple(q - n, -interval);
    }
  }

  lemma DueExactly<S, P>(m: Model<S, P>, agg: Aggregate<S>)
    requires m.interval != 0
    ensures Due(m, agg) <==> Multiple(agg.version, m.interval)
  {
    if Due(m, agg) {
      assert agg.version == Times(agg.version / m.interval, m.interval);
    }
    if n :| agg.version == Times(n, m.interval) {
      OneQuotient(m.interval, n);
    }
  }

  lemma UpsertExactly<S, P>(m: Model<S, P>, snaps: map<Key, Snapshot<P>>, agg: Aggregate<S>, fault: Fault)
    requires m.interval != 0
    ensures Upsert(m, snaps, agg, fault)
         == if Multiple(agg.version, m.interval) && !fault.NotExecuted?
            then snaps[agg.key := Snapshot(agg.version, m.toSnapshot(agg.state))] else snaps
  {
    DueExactly(m, agg);
  }

  /** A save that got its events through leaves a snapshot of the aggregate exactly at the multiples of the interval,
      unless the statement does not reach the database, and touches no other. */
  lemma TakenExactly<S, P>(m: Model<S, P>, w: World<S, P>, who: nat, fault: Fault)
    requires m.interval != 0 && In(w, who) && w.instances[who].phase.Saved?
    ensures var agg, v := w.instances[who].agg, Next(m, w, WriteSnapshot(who, fault));
            && v.instances == w.instances[who := w.instances[who].(phase := Idle)] && v.rows == w.rows
            && v.snaps == if Multiple(agg.version, m.interval) && !fault.NotExecuted?
                          then w.snaps[agg.key := Snapshot(agg.version, m.toSnapshot(agg.state))] else w.snaps
  {
    UpsertExactly(m, w.snaps, w.instances[who].agg, fault);
    DueExactly(m, w.instances[who].agg);
  }

  ghost predicate OnlyMultiples<S, P>(m: Model<S, P>, w: World<S, P>) {
    forall key :: key in w.snaps ==> Multiple(w.snaps[key].version, m.interval)
  }

  lemma LoadsLeaveSnaps<S, P>(m: Model<S, P>, w: World<S, P>, step: Step<S>)
    requires m.interval != 0 && (step.Create? || step.Load?)
    ensures Next(m, w, step).snaps == w.snaps
  {
  }

  lemma ReadsLeaveSnaps<S, P>(m: Model<S, P>, w: World<S, P>, step: Step<S>)
    requires m.interval != 0 && (step.ReadSnapshot? || step.ReadTail?)
    ensures Next(m, w, step).snaps == w.snaps
  {
  }

  lemma SavesLeaveSnaps<S, P>(m: Model<S, P>, w: World<S, P>, step: Step<S>)
    requires m.interval != 0 && (step.RaiseEvent? || step.BeginSave? || step.InsertNext?)
    ensures Next(m, w, step).snaps == w.snaps
  {
  }

  lemma WriteMultiples<S, P>(m: Model<S, P>, w: World<S, P>, who: nat, fault: Fault)
    requires m.interval != 0 && OnlyMultiples(m, w)
    ensures OnlyMultiples(m, Next(m, w, WriteSnapshot(who, fault)))
  {
    if In(w, who) && w.instances[who].phase.Saved? {
      TakenExactly(m, w, who, fault);
    }
  }

  lemma StepMultiples<S, P>(m: Model<S, P>, w: World<S, P>, step: Step<S>)
    requires m.interval != 0 && OnlyMultiples(m, w)
    ensures OnlyMultiples(m, Next(m, w, step))
  {
    if step.WriteSnapshot? {
      WriteMultiples(m, w, step.who, step.fault);
    } else if step.RaiseEvent? || step.BeginSave? || step.InsertNext? {
      SavesLeaveSnaps(m, w, step);
    } else if step.ReadSnapshot? || step.ReadTail? {
      ReadsLeaveSnaps(m, w, step);
    } else {
      LoadsLeaveSnaps(m, w, step);
    }
  }

  lemma {:induction false} RunMultiples<S, P>(m: Model<S, P>, w: World<S, P>, steps: seq<Step<S>>)
    requires m.interval != 0 && OnlyMultiples(m, w)
    ensures OnlyMultiples(m, Run(m, w, steps))
    decreases |steps|
  {
    if steps != [] {
      StepMultiples(m, w, steps[0]);
      RunMultiples(m, Next(m, w, steps[0]), steps[1..]);
    }
  }

  /** For every schedule: each stored snapshot is the fold of the stream up to its version, a multiple of the interval,
      although an older one may have replaced a newer one, and loading through it gives what replaying the whole stream
      gives. */
  lemma SnapshotTheorem<S(!new), P>(m: Model<S, P>, steps: seq<Step<S>>, key: Key, own: Key)
    requires m.interval != 0 && HandlersAgree(m) && SnapshotsInvert(m)
    requires forall i :: 0 <= i < |steps| ==> Identified(steps[i])
    requires AllApplied(m, Start(), steps)
    ensures var w := Run(m, Start(), steps);
            && (key in w.snaps ==>
                  var v := w.snaps[key].version;
                  && 0 <= v <= |Stream(w.rows, key)| && Multiple(v, m.interval)
                  && FoldedSnapshot(m, Stream(w.rows, key)[..v], w.snaps[key]))
            && SnapshotLoad(m, w.rows, w.snaps, key, own) == FullLoad(m, w.rows, key, own)
  {
    var w := Run(m, Start(), steps);
    RunKeeps(m, Start(), steps);
    RunFolds(m, Start(), steps);
    RunMultiples(m, Start(), steps);
    if key in w.snaps {
      SnapshotIsPrefixFold(m, w, key);
    }
    ShortcutIsFullLoad(m, w, key, own);
  }
}
