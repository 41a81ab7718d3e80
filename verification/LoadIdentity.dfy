/** Load never sets the identity of the aggregate that the factory made: exactly when that breaks a stream. */
module LoadIdentity {
  import opened EventHistory
  import opened EventStore
  import opened Ordering

  lemma StreamLength(rows: Rows, key: Key)
    ensures |Stream(rows, key)| == |Versions(rows, key, 0)|
  {
  }

  lemma StreamShows(rows: Rows, key: Key, v: int)
    requires Slot(key, v) in rows && v > 0
    ensures rows[Slot(key, v)] in Stream(rows, key)
  {
    var vs := Versions(rows, key, 0);
    assert Slot(key, v).version in vs;
    AscendingFacts(vs);
    assert v in Ascending(vs);
    var k :| 0 <= k < |Ascending(vs)| && Ascending(vs)[k] == v;
    assert Stream(rows, key)[k] == rows[Slot(key, v)];
  }

  /** A new row makes its stream one longer. */
  lemma StreamGrows(rows: Rows, e: Event)
    requires e.version > 0 && Slot(e.key, e.version) !in rows
    ensures |Stream(rows[Slot(e.key, e.version) := e], e.key)| == |Stream(rows, e.key)| + 1
  {
    var more := rows[Slot(e.key, e.version) := e];
    assert Versions(more, e.key, 0) == Versions(rows, e.key, 0) + {e.version} by {
      assert Slot(e.key, e.version) in more;
      forall s | s in rows
        ensures s in more
      {
      }
    }
    StreamLength(rows, e.key);
    StreamLength(more, e.key);
  }

  /** A row beyond the next version of its stream leaves a gap. */
  lemma GapBreaksSequence(rows: Rows, raises: set<Raise>, e: Event)
    requires e.version > |Stream(rows, e.key)| + 1 && Slot(e.key, e.version) !in rows
    ensures !Sequenced(Stream(rows[Slot(e.key, e.version) := e], e.key), raises)
  {
    StreamShows(rows[Slot(e.key, e.version) := e], e.key, e.version);
    StreamGrows(rows, e);
  }

  ghost predicate Unused(rows: Rows, uid: string) {
    forall s :: s in rows ==> rows[s].uid != uid
  }

  /** An idle instance with nothing pending raises one event and saves it. */
  function RaiseAndSave<S, P>(w: World<S, P>, who: nat, uid: string, state: S): World<S, P>
    requires In(w, who)
  {
    var v := BeginOf(RaiseOf(w, who, uid, "", "", state), who);
    if v.instances[who].phase.Saving? then InsertOf(v, who, NoFault) else v
  }

  lemma RaiseAndSaveInserts<S, P>(w: World<S, P>, who: nat, uid: string, state: S)
    requires In(w, who) && w.instances[who].agg.uncommitted == []
    ensures RaiseAndSave(w, who, uid, state).rows
         == Insert(w.rows, NewEvent(w.instances[who].agg, uid, "", ""), NoFault).rows
  {
    var v := RaiseOf(w, who, uid, "", "", state);
    assert v.instances[who].agg.uncommitted == [NewEvent(w.instances[who].agg, uid, "", "")];
  }

  lemma LoadedAs<S, P>(m: Model<S, P>, w: World<S, P>, who: nat, key: Key, own: Key)
    requires Dense(w.rows) && !FullLoad(m, w.rows, key, own).failed
    ensures var v := LoadOf(m, w, who, key, own);
            && In(v, who) && v.rows == w.rows
            && v.instances[who].agg.key == own && v.instances[who].agg.uncommitted == []
            && v.instances[who].agg.version == |Stream(w.rows, key)|
  {
    StreamIsStored(w.rows, key);
    ReplayVersion(m.handle, Fresh(m, own), Stream(w.rows, key));
  }

  lemma DenseExtended(rows: Rows, e: Event, n: nat)
    requires Dense(rows) && e.version == n + 1
    requires forall v :: 1 <= v <= n ==> Slot(e.key, v) in rows
    ensures Dense(rows[Slot(e.key, e.version) := e])
  {
    var more := rows[Slot(e.key, e.version) := e];
    forall s, v | s in more && 1 <= v < s.version
      ensures Slot(s.key, v) in more
    {
      if s != Slot(e.key, e.version) {
        assert s in rows;
      }
    }
  }

  lemma ExtendedAt(rows: Rows, e: Event, j: nat)
    requires Dense(rows) && Dense(rows[Slot(e.key, e.version) := e]) && e.version == |Stream(rows, e.key)| + 1
    requires j < |Stream(rows[Slot(e.key, e.version) := e], e.key)| && j <= |Stream(rows, e.key)|
    ensures Stream(rows[Slot(e.key, e.version) := e], e.key)[j] == (Stream(rows, e.key) + [e])[j]
  {
    StreamAt(rows[Slot(e.key, e.version) := e], e.key, 0, j);
    if j < |Stream(rows, e.key)| {
      StreamAt(rows, e.key, 0, j);
    }
  }

  /** A row for the next version extends the stream by its event. */
  lemma StreamExtended(rows: Rows, e: Event)
    requires Dense(rows) && e.version == |Stream(rows, e.key)| + 1
    ensures Stream(rows[Slot(e.key, e.version) := e], e.key) == Stream(rows, e.key) + [e]
  {
    forall v | 1 <= v <= |Stream(rows, e.key)|
      ensures Slot(e.key, v) in rows
    {
      StreamAt(rows, e.key, 0, v - 1);
    }
    DenseExtended(rows, e, |Stream(rows, e.key)|);
    SlotFree(rows, e.key, e.version);
    StreamGrows(rows, e);
    forall j | 0 <= j < |Stream(rows, e.key)| + 1
      ensures Stream(rows[Slot(e.key, e.version) := e], e.key)[j] == (Stream(rows, e.key) + [e])[j]
    {
      ExtendedAt(rows, e, j);
    }
  }

  ghost predicate NotRaised(raises: set<Raise>, uid: string) {
    forall r :: r in raises ==> r.event.uid != uid
  }

  /** The slot is taken: nothing is inserted. */
  lemma RefusedEvent(rows: Rows, raises: set<Raise>, loaded: seq<Event>, e: Event)
    requires Dense(rows) && Sequenced(Stream(rows, e.key), raises)
    requires e.version == |loaded| + 1 <= |Stream(rows, e.key)|
    ensures Sequenced(Stream(Insert(rows, e, NoFault).rows, e.key), raises + {Raise(loaded, e)})
  {
    StreamAt(rows, e.key, 0, |loaded|);
  }

  /** The slot is the next one: the event is in order exactly if it was raised on top of what is there. */
  lemma NextEvent(stream: seq<Event>, raises: set<Raise>, loaded: seq<Event>, e: Event)
    requires Sequenced(stream, raises) && NotRaised(raises, e.uid) && e.version == |loaded| + 1 == |stream| + 1
    ensures Sequenced(stream + [e], raises + {Raise(loaded, e)}) <==> loaded == stream
  {
    var more := stream + [e];
    assert more[|stream|] == e && more[..|stream|] == stream;
    forall k | 0 <= k < |stream|
      ensures more[k] == stream[k] && more[..k] == stream[..k]
    {
    }
    if Sequenced(more, raises + {Raise(loaded, e)}) {
      assert Raise(more[..|stream|], more[|stream|]) in raises + {Raise(loaded, e)};
    }
  }

  lemma MisplacedEvent(rows: Rows, raises: set<Raise>, loaded: seq<Event>, e: Event)
    requires Dense(rows) && Sequenced(Stream(rows, e.key), raises) && e.version == |loaded| + 1
    requires Unused(rows, e.uid) && NotRaised(raises, e.uid)
    ensures var stream := Stream(rows, e.key);
            Sequenced(Stream(Insert(rows, e, NoFault).rows, e.key), raises + {Raise(loaded, e)})
            <==> |loaded| < |stream| || loaded == stream
  {
    var stream := Stream(rows, e.key);
    if |loaded| < |stream| {
      RefusedEvent(rows, raises, loaded, e);
    } else {
      SlotFree(rows, e.key, e.version);
      assert Insert(rows, e, NoFault).rows == rows[Slot(e.key, e.version) := e];
      if |loaded| == |stream| {
        StreamExtended(rows, e);
        NextEvent(stream, raises, loaded, e);
      } else {
        GapBreaksSequence(rows, raises + {Raise(loaded, e)}, e);
      }
    }
  }

  /** Load never sets the identity. If the factory answers with another aggregate's, then one raise and one
      undisturbed save leave that aggregate's stream in order exactly when the save is refused, because the
      stream is longer than the one loaded, or when both streams are equal, that is, empty. */
  lemma {:induction false} MisidentifiedLoad<S, P>(m: Model<S, P>, w: World<S, P>, who: nat, key: Key, own: Key,
                                                   uid: string, state: S)
    requires Inv(w) && key != own && Unused(w.rows, uid) && NotRaised(w.raises, uid)
    requires !FullLoad(m, w.rows, key, own).failed
    ensures In(LoadOf(m, w, who, key, own), who)
    ensures var v := RaiseAndSave(LoadOf(m, w, who, key, own), who, uid, state);
            Sequenced(Stream(v.rows, own), v.raises)
            <==> |Stream(w.rows, key)| < |Stream(w.rows, own)| || Stream(w.rows, key) == Stream(w.rows, own)
  {
    LoadedAs(m, w, who, key, own);
    InvSequenced(w, own);
    var w1 := LoadOf(m, w, who, key, own);
    RaiseAndSaveInserts(w1, who, uid, state);
    MisplacedEvent(w.rows, w.raises, Stream(w.rows, key), NewEvent(w1.instances[who].agg, uid, "", ""));
  }

  // ---------------------------------------------------------------- A run that gets there

  function OneSave<S>(who: nat, uid: string, state: S): seq<Step<S>> {
    [RaiseEvent(who, uid, "", "", state), BeginSave(who), InsertNext(who, NoFault)]
  }

  lemma RunThree<S, P>(m: Model<S, P>, w: World<S, P>, a: Step<S>, b: Step<S>, c: Step<S>)
    requires m.interval != 0
    ensures Run(m, w, [a, b, c]) == Next(m, Next(m, Next(m, w, a), b), c)
  {
    var w1 := Next(m, w, a);
    var w2 := Next(m, w1, b);
    assert [a, b, c][1..] == [b, c] && [b, c][1..] == [c] && [c][1..] == [];
    assert Run(m, w2, [c]) == Run(m, Next(m, w2, c), []);
    assert Run(m, w1, [b, c]) == Run(m, w2, [c]);
  }

  lemma OneSaveRuns<S, P>(m: Model<S, P>, w: World<S, P>, who: nat, uid: string, state: S)
    requires m.interval != 0 && In(w, who) && w.instances[who].phase.Idle? && w.instances[who].agg.uncommitted == []
    ensures Run(m, w, OneSave(who, uid, state)) == RaiseAndSave(w, who, uid, state)
  {
    RunThree(m, w, RaiseEvent(who, uid, "", "", state), BeginSave(who), InsertNext(who, NoFault));
  }

  function FirstEvent(key: Key): Event {
    Event("1", key, "", 1, "")
  }

  /** An aggregate is created and saves its first event. */
  function Begun<S, P>(m: Model<S, P>, key: Key, state: S): World<S, P> {
    RaiseAndSave(Put(Start(), 0, Instance(Fresh(m, key), Idle, [])), 0, "1", state)
  }

  lemma BegunIsARun<S, P>(m: Model<S, P>, key: Key, state: S)
    requires m.interval != 0
    ensures Run(m, Start(), [Create(0, key)] + OneSave(0, "1", state)) == Begun(m, key, state)
    ensures Inv(Begun(m, key, state))
  {
    var w0 := Put(Start(), 0, Instance(Fresh(m, key), Idle, []));
    var steps := [Create(0, key)] + OneSave(0, "1", state);
    assert steps[1..] == OneSave(0, "1", state);
    assert Run(m, Start(), steps) == Run(m, w0, OneSave(0, "1", state));
    OneSaveRuns(m, w0, 0, "1", state);
    RunKeeps(m, Start(), steps);
  }

  lemma BegunRows<S, P>(m: Model<S, P>, key: Key, state: S)
    ensures Begun(m, key, state).rows == map[Slot(key, 1) := FirstEvent(key)]
    ensures Begun(m, key, state).raises == {Raise([], FirstEvent(key))}
  {
    RaiseAndSaveInserts<S, P>(Put(Start(), 0, Instance(Fresh(m, key), Idle, [])), 0, "1", state);
  }

  lemma BegunStreams(key: Key, own: Key)
    requires key != own
    ensures Stream(map[Slot(key, 1) := FirstEvent(key)], key) == [FirstEvent(key)]
    ensures Stream(map[Slot(key, 1) := FirstEvent(key)], own) == []
  {
    var none: Rows := map[];
    assert Stream(none, key) == [];
    StreamExtended(none, FirstEvent(key));
    assert none[Slot(key, 1) := FirstEvent(key)] == map[Slot(key, 1) := FirstEvent(key)];
    assert Versions(map[Slot(key, 1) := FirstEvent(key)], own, 0) == {};
  }

  lemma ReplayOne<S>(step: (S, Event) -> Handled<S>, agg: Aggregate<S>, e: Event)
    ensures Replay(step, agg, [e]).failed == step(agg.state, e).failed
  {
    assert [e][1..] == [];
  }

  /** One aggregate with one event is enough: created, raised and saved, loaded under another identity, and raised
      and saved once more. */
  lemma {:induction false} BrokenStreamIsReachable<S, P>(m: Model<S, P>, key: Key, own: Key, state: S)
    returns (steps: seq<Step<S>>)
    requires m.interval != 0 && key != own && !m.handle(m.initial, FirstEvent(key)).failed
    ensures var v := Run(m, Start(), steps); !Sequenced(Stream(v.rows, own), v.raises)
  {
    var w := Begun(m, key, state);
    BegunIsARun(m, key, state);
    BegunRows(m, key, state);
    BegunStreams(key, own);
    ReplayOne(m.handle, Fresh(m, own), FirstEvent(key));
    MisidentifiedLoad(m, w, 1, key, own, "2", state);
    LoadedAs(m, w, 1, key, own);
    var back := LoadAndSave(m, w, 1, key, own, "2", state);
    steps := [Create(0, key)] + OneSave(0, "1", state) + back;
    RunConcat(m, Start(), [Create(0, key)] + OneSave(0, "1", state), back);
  }

  lemma LoadAndSave<S, P>(m: Model<S, P>, w: World<S, P>, who: nat, key: Key, own: Key, uid: string, state: S)
    returns (steps: seq<Step<S>>)
    requires m.interval != 0 && Dense(w.rows) && !FullLoad(m, w.rows, key, own).failed
    ensures In(LoadOf(m, w, who, key, own), who)
    ensures Run(m, w, steps) == RaiseAndSave(LoadOf(m, w, who, key, own), who, uid, state)
  {
    LoadedAs(m, w, who, key, own);
    OneSaveRuns(m, LoadOf(m, w, who, key, own), who, uid, state);
    steps := [Load(who, key, own)] + OneSave(who, uid, state);
    assert steps[1..] == OneSave(who, uid, state);
  }
}
