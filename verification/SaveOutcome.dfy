/** What one call of Save does to the table, and when it goes through. */
module SaveOutcome {
  import opened EventHistory
  import opened EventStore

  // ---------------------------------------------------------------- Save as a run of the step system

  function Inserts<S>(who: nat, faults: seq<Fault>): seq<Step<S>> {
    seq(|faults|, j requires 0 <= j < |faults| => InsertNext(who, faults[j]))
  }

  lemma {:induction false} InsertsAfterError<S, P>(m: Model<S, P>, w: World<S, P>, who: nat, faults: seq<Fault>)
    requires m.interval != 0 && In(w, who) && !w.instances[who].phase.Saving?
    ensures Run(m, w, Inserts(who, faults)) == w
    decreases |faults|
  {
    if faults != [] {
      assert Inserts<S>(who, faults)[1..] == Inserts<S>(who, faults[1..]);
      InsertsAfterError(m, w, who, faults[1..]);
    }
  }

  /** The instance after its save has come to an end. */
  function AfterSave<S>(i: Instance<S>, failed: bool): Instance<S> {
    if failed then i.(phase := Idle) else i.(phase := Saved, agg := i.agg.(uncommitted := []))
  }

  /** The first insert of the rest, and what Append makes of it. */
  lemma FirstInsert<S, P>(w: World<S, P>, who: nat, faults: seq<Fault>)
    requires In(w, who) && w.instances[who].phase.Saving?
    requires w.instances[who].phase.next < |w.instances[who].agg.uncommitted|
    requires |faults| == |w.instances[who].agg.uncommitted| - w.instances[who].phase.next
    ensures var i := w.instances[who];
            var n := i.phase.next;
            var r := Insert(w.rows, i.agg.uncommitted[n], faults[0]);
            var a := AppendAll(w.rows, i.agg.uncommitted[n..], faults);
            if r.failed || n + 1 == |i.agg.uncommitted| then
              a == r && InsertOf(w, who, faults[0]) == Put(w.(rows := r.rows), who, AfterSave(i, r.failed))
            else
              a == AppendAll(r.rows, i.agg.uncommitted[n + 1..], faults[1..])
              && InsertOf(w, who, faults[0]) == Put(w.(rows := r.rows), who, i.(phase := Saving(n + 1)))
  {
    var i := w.instances[who];
    var rest := i.agg.uncommitted[i.phase.next..];
    assert rest[1..] == i.agg.uncommitted[i.phase.next + 1..];
    assert rest[0] == i.agg.uncommitted[i.phase.next];
  }

  lemma {:induction false} InsertsAreAppend<S, P>(m: Model<S, P>, w: World<S, P>, who: nat, faults: seq<Fault>)
    requires m.interval != 0 && In(w, who) && w.instances[who].phase.Saving?
    requires w.instances[who].phase.next < |w.instances[who].agg.uncommitted|
    requires |faults| == |w.instances[who].agg.uncommitted| - w.instances[who].phase.next
    ensures var i := w.instances[who];
            var a := AppendAll(w.rows, i.agg.uncommitted[i.phase.next..], faults);
            Run(m, w, Inserts(who, faults)) == Put(w.(rows := a.rows), who, AfterSave(i, a.failed))
    decreases |faults|
  {
    var i := w.instances[who];
    FirstInsert(w, who, faults);
    var v := InsertOf(w, who, faults[0]);
    assert Inserts<S>(who, faults)[1..] == Inserts<S>(who, faults[1..]);
    assert Run(m, w, Inserts(who, faults)) == Run(m, v, Inserts(who, faults[1..]));
    if v.instances[who].phase.Saving? {
      InsertsAreAppend(m, v, who, faults[1..]);
      var a := AppendAll(w.rows, i.agg.uncommitted[i.phase.next..], faults);
      PutTwice(w, v, a.rows, who, AfterSave(i, a.failed));
    } else {
      InsertsAfterError(m, v, who, faults[1..]);
    }
  }

  lemma PutTwice<S, P>(w: World<S, P>, v: World<S, P>, rows: Rows, who: nat, i: Instance<S>)
    requires In(v, who) && v == Put(w.(rows := v.rows), who, v.instances[who])
    ensures Put(v.(rows := rows), who, i) == Put(w.(rows := rows), who, i)
  {
    assert v.instances[who := i] == w.instances[who := i];
  }

  /** The repository's Save is a run of these steps, so what holds of every schedule holds of it. */
  lemma SaveIsARun<S, P>(m: Model<S, P>, w: World<S, P>, who: nat, faults: seq<Fault>)
    requires m.interval != 0 && In(w, who) && w.instances[who].phase.Idle?
    requires |faults| == |w.instances[who].agg.uncommitted|
    ensures var i := w.instances[who];
            var a := AppendAll(w.rows, i.agg.uncommitted, faults);
            Run(m, w, [BeginSave(who)] + Inserts(who, faults)) == Put(w.(rows := a.rows), who, AfterSave(i, a.failed))
  {
    var i := w.instances[who];
    var v := BeginOf(w, who);
    var steps := [BeginSave(who)] + Inserts<S>(who, faults);
    assert steps[1..] == Inserts<S>(who, faults);
    assert Run(m, w, steps) == Run(m, v, Inserts(who, faults));
    if i.agg.uncommitted == [] {
      InsertsAfterError(m, v, who, faults);
    } else {
      assert i.agg.uncommitted[0..] == i.agg.uncommitted;
      InsertsAreAppend(m, v, who, faults);
    }
    var a := AppendAll(w.rows, i.agg.uncommitted, faults);
    PutTwice(w, v, a.rows, who, AfterSave(i, a.failed));
  }

  // ---------------------------------------------------------------- When a save goes through

  function NoFaults(n: nat): seq<Fault> {
    seq(n, i => NoFault)
  }

  /** The identifiers of the events are unused and differ from each other. */
  ghost predicate NewUids(rows: Rows, events: seq<Event>) {
    && (forall s, j :: s in rows && 0 <= j < |events| ==> rows[s].uid != events[j].uid)
    && (forall j, k :: 0 <= j < k < |events| ==> events[j].uid != events[k].uid)
  }

  /** Events for free slots of one aggregate, the first right after version `from`. */
  ghost predicate ForFreeSlots(rows: Rows, key: Key, from: int, events: seq<Event>) {
    forall j :: 0 <= j < |events| ==>
      events[j].key == key && events[j].version == from + 1 + j && Slot(key, from + 1 + j) !in rows
  }

  lemma UidsSplit(rows: Rows, events: seq<Event>)
    requires events != [] && Admissible(rows, events[0])
    ensures var more := rows[Slot(events[0].key, events[0].version) := events[0]];
            NewUids(rows, events) <==> NewUids(more, events[1..])
  {
    var slot := Slot(events[0].key, events[0].version);
    var more, rest := rows[slot := events[0]], events[1..];
    if NewUids(more, rest) {
      forall s, j | s in rows && 0 <= j < |events|
        ensures rows[s].uid != events[j].uid
      {
        assert j > 0 ==> rest[j - 1] == events[j] && s in more && more[s] == rows[s];
      }
      forall j, k | 0 <= j < k < |events|
        ensures events[j].uid != events[k].uid
      {
        assert rest[k - 1] == events[k] && more[slot] == events[0];
        assert j > 0 ==> rest[j - 1] == events[j];
      }
    }
  }

  lemma {:induction false} FreeSlotsTakeAll(rows: Rows, key: Key, from: int, events: seq<Event>)
    requires ForFreeSlots(rows, key, from, events)
    ensures !AppendAll(rows, events, NoFaults(|events|)).failed <==> NewUids(rows, events)
    decreases |events|
  {
    if events != [] {
      assert NoFaults(|events|)[1..] == NoFaults(|events[1..]|);
      if Admissible(rows, events[0]) {
        UidsSplit(rows, events);
        FreeSlotsTakeAll(rows[Slot(key, from + 1) := events[0]], key, from + 1, events[1..]);
      } else {
        var s :| s in rows && rows[s].uid == events[0].uid;
      }
    }
  }

  /** An undisturbed save goes through exactly when nothing is pending, or the stream still ends where the instance
      saw it end and the new identifiers are new. */
  lemma SaveSucceedsExactly<S>(rows: Rows, raises: set<Raise>, i: Instance<S>)
    requires Dense(rows) && InstanceOk(rows, raises, i) && i.phase.Idle?
    ensures var events := i.agg.uncommitted;
            !AppendAll(rows, events, NoFaults(|events|)).failed
            <==> events == [] || (|Stream(rows, i.agg.key)| == Base(i) && NewUids(rows, events))
  {
    var events, key := i.agg.uncommitted, i.agg.key;
    if events != [] {
      KnownPart(rows, raises, i);
      if |Stream(rows, key)| == Base(i) {
        forall j | 0 <= j < |events|
          ensures events[j].key == key && events[j].version == Base(i) + 1 + j && Slot(key, Base(i) + 1 + j) !in rows
        {
          assert events[j] == i.history[Base(i) + j];
          SlotFree(rows, key, Base(i) + 1 + j);
        }
        FreeSlotsTakeAll(rows, key, Base(i), events);
      } else {
        StreamAt(rows, key, 0, Base(i));
        assert events[0] == i.history[Base(i)];
      }
    }
  }

  lemma KnownPart<S>(rows: Rows, raises: set<Raise>, i: Instance<S>)
    requires Dense(rows) && InstanceOk(rows, raises, i) && i.phase.Idle?
    ensures Base(i) <= |Stream(rows, i.agg.key)|
  {
    StoredIsPrefix(rows, i.agg.key, i.history[..Committed(i)]);
  }

  // ---------------------------------------------------------------- A save that was cut short

  lemma {:induction false} AppendExtends(rows: Rows, events: seq<Event>, faults: seq<Fault>)
    requires |faults| == |events|
    ensures Extends(AppendAll(rows, events, faults).rows, rows)
    decreases |events|
  {
    if events != [] {
      var first := Insert(rows, events[0], faults[0]);
      if !first.failed {
        AppendExtends(first.rows, events[1..], faults[1..]);
      }
    }
  }

  /** Once a failed save has left part of its events behind, every retry fails at the first of them and adds
      nothing, however the table grows meanwhile. */
  lemma PartialSaveNeverSucceeds(rows: Rows, events: seq<Event>, faults: seq<Fault>, later: Rows, retry: seq<Fault>)
    requires |faults| == |events| == |retry|
    requires AppendAll(rows, events, faults).failed && AppendAll(rows, events, faults).rows != rows
    requires Extends(later, AppendAll(rows, events, faults).rows)
    ensures AppendAll(later, events, retry) == Written(later, true)
  {
    var first := Insert(rows, events[0], faults[0]);
    if !first.failed {
      AppendExtends(first.rows, events[1..], faults[1..]);
    }
    var slot := Slot(events[0].key, events[0].version);
    assert slot in first.rows;
    assert slot in AppendAll(rows, events, faults).rows;
  }
}
