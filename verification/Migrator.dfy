/** Running migrations up and down against a database and its control table. */
module Migrator {
  import opened Options

  /** What a migration function does to the database, and whether it then reports an error. */
  datatype Effect<D> = Effect(db: D, failed: bool)

  datatype Migration<!D> = Migration(version: int, up: D -> Effect<D>, down: Option<D -> Effect<D>>)

  /** The database and the versions in the control table. */
  datatype Store<D> = Store(db: D, log: set<int>)

  datatype Result<D> = Result(store: Store<D>, failed: bool)

  /** What goes wrong around one migration: the transaction does not begin, its record is not written or not
      committed, or the commit takes effect although it reports an error. */
  datatype Fault = NoFault | NotBegun | NotRecorded | ReplyLost

  // ---------------------------------------------------------------- One migration

  /** The migration functions work on the database directly, outside the transaction that records them. */
  function RunUp<D>(s: Store<D>, m: Migration<D>, fault: Fault): Result<D> {
    if fault.NotBegun? then Result(s, true)
    else
      var e := m.up(s.db);
      if e.failed || fault.NotRecorded? || m.version in s.log then Result(Store(e.db, s.log), true)
      else Result(Store(e.db, s.log + {m.version}), fault.ReplyLost?)
  }

  function RunDown<D>(s: Store<D>, m: Migration<D>, fault: Fault): Result<D> {
    if fault.NotBegun? || m.down.None? then Result(s, true)
    else
      var e := m.down.value(s.db);
      if e.failed || fault.NotRecorded? then Result(Store(e.db, s.log), true)
      else Result(Store(e.db, s.log - {m.version}), fault.ReplyLost?)
  }

  // ---------------------------------------------------------------- All of them

  /** The loop of Up; `applied` is what the control table held when it started. */
  function UpAll<D>(s: Store<D>, applied: set<int>, ms: seq<Migration<D>>, faults: int -> Fault): Result<D>
    decreases |ms|
  {
    if ms == [] then Result(s, false)
    else if ms[0].version in applied then UpAll(s, applied, ms[1..], faults)
    else
      var r := RunUp(s, ms[0], faults(ms[0].version));
      if r.failed then r else UpAll(r.store, applied, ms[1..], faults)
  }

  /** The registered migration with the greatest positive version among those recorded. */
  function LastApplied<D>(ms: seq<Migration<D>>, log: set<int>): Option<Migration<D>> {
    if ms == [] then None
    else
      var front := LastApplied(ms[..|ms| - 1], log);
      var m := ms[|ms| - 1];
      if m.version in log && m.version > (if front.Some? then front.value.version else 0) then Some(m) else front
  }

  function DownOnce<D>(s: Store<D>, ms: seq<Migration<D>>, fault: Fault): Result<D> {
    if s.log == {} then Result(s, false)
    else
      match LastApplied(ms, s.log)
      case None => Result(s, true)
      case Some(m) => RunDown(s, m, fault)
  }

  ghost predicate InOrder<D>(ms: seq<Migration<D>>) {
    forall i, j :: 0 <= i < j < |ms| ==> ms[i].version <= ms[j].version
  }

  /** Distinct versions, in ascending order. */
  ghost predicate StrictlyInOrder<D>(ms: seq<Migration<D>>) {
    forall i, j :: 0 <= i < j < |ms| ==> ms[i].version < ms[j].version
  }

  lemma InsertInOrder<D>(s: seq<Migration<D>>, k: nat, m: Migration<D>)
    requires k <= |s| && InOrder(s)
    requires forall j :: 0 <= j < k ==> s[j].version <= m.version
    requires k < |s| ==> m.version < s[k].version
    ensures InOrder(s[..k] + [m] + s[k..])
  {
  }

  lemma InsertKeepsMembers<D>(s: seq<Migration<D>>, k: nat, m: Migration<D>)
    requires k <= |s|
    ensures multiset(s[..k] + [m] + s[k..]) == multiset(s) + multiset{m}
  {
    assert s == s[..k] + s[k..];
  }

  method InsertByVersion<D>(s: seq<Migration<D>>, m: Migration<D>) returns (r: seq<Migration<D>>)
    requires InOrder(s)
    ensures InOrder(r) && multiset(r) == multiset(s) + multiset{m}
  {
    var k := 0;
    while k < |s| && s[k].version <= m.version
      invariant 0 <= k <= |s|
      invariant forall j :: 0 <= j < k ==> s[j].version <= m.version
    {
      k := k + 1;
    }
    InsertInOrder(s, k, m);
    InsertKeepsMembers(s, k, m);
    r := s[..k] + [m] + s[k..];
  }

  method SortByVersion<D>(ms: seq<Migration<D>>) returns (sorted: seq<Migration<D>>)
    ensures InOrder(sorted) && multiset(sorted) == multiset(ms)
  {
    sorted := [];
    for i := 0 to |ms|
      invariant InOrder(sorted) && multiset(sorted) == multiset(ms[..i])
    {
      assert ms[..i + 1] == ms[..i] + [ms[i]];
      sorted := InsertByVersion(sorted, ms[i]);
    }
    assert ms[..|ms|] == ms;
  }

  class Migrator<!D> {
    var migrations: seq<Migration<D>>
    var db: D
    var log: set<int>

    constructor (db: D)
      ensures Value() == Store(db, {}) && migrations == []
    {
      this.db, log, migrations := db, {}, [];
    }

    function Value(): Store<D>
      reads this
    {
      Store(db, log)
    }

    method RegisterMultiple(more: seq<Migration<D>>)
      modifies this
      ensures migrations == old(migrations) + more && Value() == old(Value())
    {
      migrations := migrations + more;
    }

    /** `reachable` tells whether the control table can be created and read at all. */
    method Up(reachable: bool, faults: int -> Fault) returns (failed: bool)
      modifies this
      ensures !reachable ==> failed && Value() == old(Value())
      ensures reachable ==> InOrder(migrations) && multiset(migrations) == multiset(old(migrations))
                            && Result(Value(), failed) == UpAll(old(Value()), old(log), migrations, faults)
    {
      if !reachable {
        return true;
      }
      var applied := log;
      var ms := SortByVersion(migrations);
      migrations := ms;
      assert ms[0..] == ms;
      for i := 0 to |ms|
        invariant migrations == ms
        invariant UpAll(Value(), applied, ms[i..], faults) == UpAll(old(Value()), applied, ms, faults)
      {
        var m := ms[i];
        assert ms[i..][0] == m && ms[i..][1..] == ms[i + 1..];
        if m.version !in applied {
          failed := RunMigration(m, true, faults(m.version));
          if failed {
            return;
          }
        }
      }
      return false;
    }

    method RunMigration(m: Migration<D>, up: bool, fault: Fault) returns (failed: bool)
      modifies this
      ensures Result(Value(), failed) == if up then RunUp(old(Value()), m, fault) else RunDown(old(Value()), m, fault)
      ensures migrations == old(migrations)
    {
      if fault.NotBegun? {
        return true;
      }
      if up {
        var e := m.up(db);
        db := e.db;
        if e.failed {
          return true;
        }
      } else {
        if m.down.None? {
          return true;
        }
        var e := m.down.value(db);
        db := e.db;
        if e.failed {
          return true;
        }
      }
      if fault.NotRecorded? || (up && m.version in log) {
        return true;
      }
      log := if up then log + {m.version} else log - {m.version};
      return fault.ReplyLost?;
    }

    /** Down reads the control table, which it does not create. */
    method Down(readable: bool, fault: Fault) returns (failed: bool)
      modifies this
      ensures !readable ==> failed && Value() == old(Value())
      ensures readable ==> Result(Value(), failed) == DownOnce(old(Value()), old(migrations), fault)
      ensures migrations == old(migrations)
    {
      if !readable {
        return true;
      }
      if log == {} {
        return false;
      }
      var last: Option<Migration<D>> := None;
      var maxVersion := 0;
      for i := 0 to |migrations|
        invariant migrations == old(migrations) && Value() == old(Value())
        invariant last == LastApplied(migrations[..i], log)
        invariant maxVersion == if last.Some? then last.value.version else 0
      {
        assert migrations[..i + 1][..i] == migrations[..i];
        if migrations[i].version in log && migrations[i].version > maxVersion {
          maxVersion := migrations[i].version;
          last := Some(migrations[i]);
        }
      }
      assert migrations[..|migrations|] == migrations;
      if last.None? {
        return true;
      }
      failed := RunMigration(last.value, false, fault);
    }
  }

  // ---------------------------------------------------------------- What Up does

  /** The migrations that are not recorded yet, in list order. */
  function Pending<D>(ms: seq<Migration<D>>, log: set<int>): seq<Migration<D>> {
    if ms == [] then [] else (if ms[0].version in log then [] else [ms[0]]) + Pending(ms[1..], log)
  }

  ghost function Versions<D>(ms: seq<Migration<D>>): set<int> {
    set i | 0 <= i < |ms| :: ms[i].version
  }

  function Effects<D>(db: D, ms: seq<Migration<D>>): D
    decreases |ms|
  {
    if ms == [] then db else Effects(ms[0].up(db).db, ms[1..])
  }

  /** Where things stand when exactly the first `k` pending migrations have been run and recorded without incident. */
  ghost function After<D>(s: Store<D>, pending: seq<Migration<D>>, k: nat): Store<D>
    requires k <= |pending|
  {
    Store(Effects(s.db, pending[..k]), s.log + Versions(pending[..k]))
  }

  lemma VersionsStep<D>(ms: seq<Migration<D>>, k: nat)
    requires k < |ms|
    ensures Versions(ms[..k + 1]) == Versions(ms[..k]) + {ms[k].version}
    ensures Versions([ms[0]] + ms[1..]) == {ms[0].version} + Versions(ms[1..])
  {
    forall v
      ensures v in Versions(ms[..k + 1]) <==> v in Versions(ms[..k]) || v == ms[k].version
    {
      if v in Versions(ms[..k]) {
        var i :| 0 <= i < k && ms[..k][i].version == v;
        assert ms[..k + 1][i].version == v;
      }
      assert ms[..k + 1][k].version == ms[k].version;
    }
    forall v
      ensures v in Versions([ms[0]] + ms[1..]) <==> v == ms[0].version || v in Versions(ms[1..])
    {
      if v in Versions(ms[1..]) {
        var i :| 0 <= i < |ms| - 1 && ms[1..][i].version == v;
        assert ([ms[0]] + ms[1..])[i + 1].version == v;
      }
      assert ([ms[0]] + ms[1..])[0].version == ms[0].version;
    }
  }

  lemma {:induction false} EffectsStep<D>(db: D, ms: seq<Migration<D>>, k: nat)
    requires k < |ms|
    ensures Effects(db, ms[..k + 1]) == ms[k].up(Effects(db, ms[..k])).db
    decreases |ms|
  {
    if k > 0 {
      EffectsStep(ms[0].up(db).db, ms[1..], k - 1);
      assert ms[..k + 1][1..] == ms[1..][..k] && ms[..k][1..] == ms[1..][..k - 1];
    } else {
      assert ms[..1][1..] == [];
    }
  }

  lemma {:induction false} PendingFacts<D>(ms: seq<Migration<D>>, log: set<int>)
    requires StrictlyInOrder(ms)
    ensures StrictlyInOrder(Pending(ms, log))
    ensures forall i :: 0 <= i < |Pending(ms, log)| ==>
              Pending(ms, log)[i].version !in log && Pending(ms, log)[i] in ms
    decreases |ms|
  {
    if ms != [] {
      PendingFacts(ms[1..], log);
      forall i | 0 <= i < |Pending(ms[1..], log)|
        ensures Pending(ms[1..], log)[i].version > ms[0].version && Pending(ms[1..], log)[i] in ms
      {
        var j :| 0 <= j < |ms[1..]| && ms[1..][j] == Pending(ms[1..], log)[i];
      }
    }
  }

  /** Skipping the recorded ones is running the pending ones. */
  lemma {:induction false} UpRunsPending<D>(s: Store<D>, applied: set<int>, ms: seq<Migration<D>>, faults: int -> Fault)
    ensures UpAll(s, applied, ms, faults) == UpAll(s, applied, Pending(ms, applied), faults)
    decreases |ms|
  {
    if ms != [] {
      if ms[0].version in applied {
        UpRunsPending(s, applied, ms[1..], faults);
        assert [] + Pending(ms[1..], applied) == Pending(ms[1..], applied);
      } else {
        assert Pending(ms, applied)[1..] == Pending(ms[1..], applied);
        var r := RunUp(s, ms[0], faults(ms[0].version));
        if !r.failed {
          UpRunsPending(r.store, applied, ms[1..], faults);
        }
      }
    }
  }

  /** How a run of Up can stop at the k-th pending migration. */
  ghost predicate StoppedAt<D>(s: Store<D>, pending: seq<Migration<D>>, k: nat, faults: int -> Fault, end: Store<D>) {
    k < |pending| && Result(end, true) == RunUp(After(s, pending, k), pending[k], faults(pending[k].version))
  }

  /** From a clean point on, Up either gets through all the pending migrations or stops at one of them. */
  lemma {:induction false} UpFrom<D>(s: Store<D>, applied: set<int>, pending: seq<Migration<D>>, k: nat,
                                     faults: int -> Fault)
    requires k <= |pending|
    requires forall i :: 0 <= i < |pending| ==> pending[i].version !in applied
    ensures var r := UpAll(After(s, pending, k), applied, pending[k..], faults);
            if r.failed then exists j: nat :: StoppedAt(s, pending, j, faults, r.store)
            else r.store == After(s, pending, |pending|)
    decreases |pending| - k
  {
    if k == |pending| {
      assert pending[k..] == [];
    } else {
      var m := pending[k];
      var r := RunUp(After(s, pending, k), m, faults(m.version));
      assert pending[k..][0] == m && pending[k..][1..] == pending[k + 1..];
      if r.failed {
        assert StoppedAt(s, pending, k, faults, r.store);
      } else {
        EffectsStep(s.db, pending, k);
        VersionsStep(pending, k);
        assert s.log + Versions(pending[..k]) + {m.version} == s.log + Versions(pending[..k + 1]);
        UpFrom(s, applied, pending, k + 1, faults);
      }
    }
  }

  /** Up runs exactly the unrecorded migrations in ascending order; whatever fails, the control table then holds
      what it held before and a prefix of them. */
  lemma UpTheorem<D>(s: Store<D>, ms: seq<Migration<D>>, faults: int -> Fault)
    requires StrictlyInOrder(ms)
    ensures StrictlyInOrder(Pending(ms, s.log))
    ensures var pending := Pending(ms, s.log);
            var r := UpAll(s, s.log, ms, faults);
            if r.failed then exists j: nat :: StoppedAt(s, pending, j, faults, r.store)
            else r.store == After(s, pending, |pending|)
    ensures var pending := Pending(ms, s.log);
            exists k: nat :: k <= |pending| && UpAll(s, s.log, ms, faults).store.log == s.log + Versions(pending[..k])
  {
    var pending := Pending(ms, s.log);
    var r := UpAll(s, s.log, ms, faults);
    PendingFacts(ms, s.log);
    UpRunsPending(s, s.log, ms, faults);
    assert pending[..0] == [] && pending[0..] == pending;
    assert Versions(pending[..0]) == {};
    assert s.log + {} == s.log;
    assert s == After(s, pending, 0);
    UpFrom(s, s.log, pending, 0, faults);
    if r.failed {
      var j: nat :| StoppedAt(s, pending, j, faults, r.store);
      VersionsStep(pending, j);
      assert s.log + Versions(pending[..j]) + {pending[j].version} == s.log + Versions(pending[..j + 1]);
      assert r.store.log == s.log + Versions(pending[..j]) || r.store.log == s.log + Versions(pending[..j + 1]);
    }
  }

  lemma WithoutOne<D>(s: seq<Migration<D>>, k: nat)
    requires k < |s|
    ensures multiset(s[..k] + s[k + 1..]) == multiset(s) - multiset{s[k]}
  {
    assert s == s[..k] + [s[k]] + s[k + 1..];
  }

  lemma OtherPlace<D>(s: seq<Migration<D>>, k: nat, m: Migration<D>) returns (l: nat)
    requires k < |s| && m in s[..k] + s[k + 1..]
    ensures l < |s| && l != k && s[l] == m
  {
    var others := s[..k] + s[k + 1..];
    var i :| 0 <= i < |others| && others[i] == m;
    l := if i < k then i else i + 1;
  }

  /** Two places of a sequence come from two places of any rearrangement of it. */
  lemma TwoPlaces<D>(before: seq<Migration<D>>, after: seq<Migration<D>>, i: nat, j: nat) returns (k: nat, l: nat)
    requires i < j < |after| && multiset(after) == multiset(before)
    ensures k < |before| && l < |before| && k != l && before[k] == after[i] && before[l] == after[j]
  {
    assert after[i] in multiset(after);
    k :| k < |before| && before[k] == after[i];
    var others, rest := before[..k] + before[k + 1..], after[..i] + after[i + 1..];
    WithoutOne(before, k);
    WithoutOne(after, i);
    assert rest[j - 1] == after[j];
    assert after[j] in multiset(rest);
    assert after[j] in multiset(others);
    l := OtherPlace(before, k, after[j]);
  }

  /** Sorting migrations whose versions differ leaves them strictly ascending. */
  lemma SortedDistinct<D>(before: seq<Migration<D>>, after: seq<Migration<D>>)
    requires forall i, j :: 0 <= i < j < |before| ==> before[i].version != before[j].version
    requires InOrder(after) && multiset(after) == multiset(before)
    ensures StrictlyInOrder(after)
  {
    forall i, j | 0 <= i < j < |after|
      ensures after[i].version != after[j].version
    {
      var k, l := TwoPlaces(before, after, i, j);
    }
  }

  /** After an Up that went through, another one runs nothing and changes nothing. */
  lemma SecondUpIsIdle<D>(s: Store<D>, ms: seq<Migration<D>>, faults: int -> Fault, again: int -> Fault)
    requires StrictlyInOrder(ms) && !UpAll(s, s.log, ms, faults).failed
    ensures var t := UpAll(s, s.log, ms, faults).store;
            Pending(ms, t.log) == [] && UpAll(t, t.log, ms, again) == Result(t, false)
  {
    var t := UpAll(s, s.log, ms, faults).store;
    UpTheorem(s, ms, faults);
    var pending := Pending(ms, s.log);
    assert pending[..|pending|] == pending;
    forall i | 0 <= i < |ms|
      ensures ms[i].version in t.log
    {
      if ms[i].version !in s.log {
        PendingHas(ms, s.log, i);
      }
    }
    NothingPending(ms, t.log);
    UpRunsPending(t, t.log, ms, again);
  }

  lemma {:induction false} PendingHas<D>(ms: seq<Migration<D>>, log: set<int>, i: nat)
    requires i < |ms| && ms[i].version !in log
    ensures ms[i].version in Versions(Pending(ms, log))
    decreases |ms|
  {
    var pending := Pending(ms, log);
    if i == 0 {
      assert pending[0].version == ms[0].version;
    } else {
      PendingHas(ms[1..], log, i - 1);
      var rest := Pending(ms[1..], log);
      var k :| 0 <= k < |rest| && rest[k].version == ms[i].version;
      assert pending[|pending| - |rest| + k] == rest[k];
    }
  }

  lemma {:induction false} NothingPending<D>(ms: seq<Migration<D>>, log: set<int>)
    requires forall i :: 0 <= i < |ms| ==> ms[i].version in log
    ensures Pending(ms, log) == []
    decreases |ms|
  {
    if ms != [] {
      NothingPending(ms[1..], log);
    }
  }

  // ---------------------------------------------------------------- What a failed Up leaves to do

  lemma {:induction false} PendingIgnores<D>(ms: seq<Migration<D>>, log: set<int>, v: int)
    requires forall i :: 0 <= i < |ms| ==> ms[i].version != v
    ensures Pending(ms, log + {v}) == Pending(ms, log)
    decreases |ms|
  {
    if ms != [] {
      PendingIgnores(ms[1..], log, v);
    }
  }

  lemma PendingSkips<D>(ms: seq<Migration<D>>, log: set<int>)
    requires ms != [] && ms[0].version in log
    ensures Pending(ms, log) == Pending(ms[1..], log)
  {
    assert [] + Pending(ms[1..], log) == Pending(ms[1..], log);
  }

  /** Recording the first `n` pending migrations leaves the others pending. */
  lemma {:induction false} PendingAfter<D>(ms: seq<Migration<D>>, log: set<int>, n: nat)
    requires StrictlyInOrder(ms) && n <= |Pending(ms, log)|
    ensures Pending(ms, log + Versions(Pending(ms, log)[..n])) == Pending(ms, log)[n..]
    decreases |ms|
  {
    var pending := Pending(ms, log);
    if n == 0 {
      assert log + Versions(pending[..0]) == log;
    } else if ms[0].version in log {
      PendingSkips(ms, log);
      PendingAfter(ms[1..], log, n);
      PendingSkips(ms, log + Versions(pending[..n]));
    } else {
      var rest := Pending(ms[1..], log);
      var later := log + Versions(rest[..n - 1]);
      assert pending[1..] == rest && pending[..n] == [ms[0]] + rest[..n - 1];
      VersionsStep([ms[0]] + rest[..n - 1], 0);
      assert ([ms[0]] + rest[..n - 1])[1..] == rest[..n - 1];
      assert log + Versions(pending[..n]) == later + {ms[0].version};
      PendingAfter(ms[1..], log, n - 1);
      PendingIgnores(ms[1..], later, ms[0].version);
      assert rest[n - 1..] == pending[n..];
    }
  }

  /** Whether the record of the migration that Up stopped at is in the control table after all. */
  predicate Recorded<D>(e: Effect<D>, fault: Fault) {
    !e.failed && fault.ReplyLost?
  }

  /** Wherever Up stops: the migration functions work outside the transaction that records them, so what the one it
      stopped at did to the database stays, while it is pending again, and run again by the next Up on top of that,
      unless only the reply to the commit was lost. */
  lemma {:induction false} UnrecordedRunsAgain<D>(s: Store<D>, ms: seq<Migration<D>>, j: nat, faults: int -> Fault,
                                                  t: Store<D>, again: int -> Fault)
    requires StrictlyInOrder(ms) && StoppedAt(s, Pending(ms, s.log), j, faults, t)
    ensures var pending := Pending(ms, s.log);
            var fault := faults(pending[j].version);
            var before := Effects(s.db, pending[..j]);
            var e := pending[j].up(before);
            && t.db == (if fault.NotBegun? then before else e.db)
            && Pending(ms, t.log) == (if Recorded(e, fault) then pending[j + 1..] else pending[j..])
            && UpAll(t, t.log, ms, again) == UpAll(t, t.log, Pending(ms, t.log), again)
  {
    var pending := Pending(ms, s.log);
    PendingFacts(ms, s.log);
    NotYetRecorded(pending, s.log, j);
    PendingAfter(ms, s.log, j);
    PendingAfter(ms, s.log, j + 1);
    VersionsStep(pending, j);
    assert s.log + Versions(pending[..j]) + {pending[j].version} == s.log + Versions(pending[..j + 1]);
    UpRunsPending(t, t.log, ms, again);
  }

  lemma NotYetRecorded<D>(pending: seq<Migration<D>>, log: set<int>, j: nat)
    requires StrictlyInOrder(pending) && j < |pending| && pending[j].version !in log
    ensures pending[j].version !in log + Versions(pending[..j])
  {
    assert forall i :: 0 <= i < j ==> pending[..j][i].version < pending[j].version;
  }

  // ---------------------------------------------------------------- What Down takes back

  /** A registered, recorded migration with a positive version, the greatest there is; of several with that version,
      the one registered first. */
  ghost predicate Latest<D>(ms: seq<Migration<D>>, log: set<int>, i: nat) {
    && i < |ms| && ms[i].version in log && ms[i].version > 0
    && (forall j :: 0 <= j < |ms| && ms[j].version in log ==> ms[j].version <= ms[i].version)
    && (forall j :: 0 <= j < i ==> ms[j].version != ms[i].version)
  }

  ghost predicate NoneToRevert<D>(ms: seq<Migration<D>>, log: set<int>) {
    forall j :: 0 <= j < |ms| && ms[j].version in log ==> ms[j].version <= 0
  }

  /** In whatever order the migrations were registered. */
  lemma {:induction false} LastAppliedIsLatest<D>(ms: seq<Migration<D>>, log: set<int>)
    ensures if LastApplied(ms, log).None? then NoneToRevert(ms, log)
            else exists i: nat :: Latest(ms, log, i) && ms[i] == LastApplied(ms, log).value
    decreases |ms|
  {
    if ms != [] {
      var n := |ms| - 1;
      LastAppliedIsLatest(ms[..n], log);
      var front := LastApplied(ms[..n], log);
      if ms[n].version in log && ms[n].version > (if front.Some? then front.value.version else 0) {
        assert Latest(ms, log, n);
      } else if front.Some? {
        var i: nat :| Latest(ms[..n], log, i) && ms[..n][i] == front.value;
        assert Latest(ms, log, i) by {
          assert forall j :: 0 <= j < n ==> ms[j] == ms[..n][j];
        }
      } else {
        assert forall j :: 0 <= j < n ==> ms[j] == ms[..n][j];
      }
    }
  }

  lemma OneLatest<D>(ms: seq<Migration<D>>, log: set<int>, i: nat, k: nat)
    requires Latest(ms, log, i) && Latest(ms, log, k)
    ensures i == k
  {
  }

  /** What one Down does: nothing with an empty control table; an error without a recorded migration to revert;
      otherwise the latest one is reverted, for which it needs a down function. The function works outside the
      transaction that takes the record away, so what it did stays although the record does. */
  lemma DownTheorem<D>(s: Store<D>, ms: seq<Migration<D>>, fault: Fault)
    ensures s.log == {} ==> DownOnce(s, ms, fault) == Result(s, false)
    ensures s.log != {} && NoneToRevert(ms, s.log) ==> DownOnce(s, ms, fault) == Result(s, true)
    ensures forall i: nat :: Latest(ms, s.log, i) ==>
      var r := DownOnce(s, ms, fault);
      if fault.NotBegun? || ms[i].down.None? then r == Result(s, true)
      else
        var e := ms[i].down.value(s.db);
        && r.store.db == e.db
        && (!r.failed <==> !e.failed && fault.NoFault?)
        && (ms[i].version !in r.store.log <==> !e.failed && !fault.NotRecorded?)
        && (forall v :: v != ms[i].version ==> (v in r.store.log <==> v in s.log))
  {
    LastAppliedIsLatest(ms, s.log);
    forall i: nat | Latest(ms, s.log, i)
      ensures LastApplied(ms, s.log) == Some(ms[i])
    {
      var k: nat :| Latest(ms, s.log, k) && ms[k] == LastApplied(ms, s.log).value;
      OneLatest(ms, s.log, i, k);
    }
  }

  // ---------------------------------------------------------------- When Up goes through

  /** The `k`-th pending migration is run and recorded without incident. */
  ghost predicate Smooth<D>(s: Store<D>, pending: seq<Migration<D>>, k: nat, faults: int -> Fault)
    requires k < |pending|
  {
    !pending[k].up(Effects(s.db, pending[..k])).failed && faults(pending[k].version).NoFault?
  }

  lemma {:induction false} UpFromSucceeds<D>(s: Store<D>, applied: set<int>, pending: seq<Migration<D>>, k: nat,
                                             faults: int -> Fault)
    requires k <= |pending| && StrictlyInOrder(pending)
    requires forall i :: 0 <= i < |pending| ==> pending[i].version !in applied && pending[i].version !in s.log
    ensures !UpAll(After(s, pending, k), applied, pending[k..], faults).failed
            <==> forall j :: k <= j < |pending| ==> Smooth(s, pending, j, faults)
    decreases |pending| - k
  {
    if k < |pending| {
      assert pending[k..][0] == pending[k] && pending[k..][1..] == pending[k + 1..];
      NotYetRecorded(pending, s.log, k);
      EffectsStep(s.db, pending, k);
      VersionsStep(pending, k);
      assert s.log + Versions(pending[..k]) + {pending[k].version} == s.log + Versions(pending[..k + 1]);
      UpFromSucceeds(s, applied, pending, k + 1, faults);
      var r := RunUp(After(s, pending, k), pending[k], faults(pending[k].version));
      assert !r.failed <==> Smooth(s, pending, k, faults);
      assert !r.failed ==> r.store == After(s, pending, k + 1);
    }
  }

  /** Up goes through exactly when every pending migration succeeds on what those before it have made of the database,
      and nothing disturbs its transaction. */
  lemma UpSucceedsExactly<D>(s: Store<D>, ms: seq<Migration<D>>, faults: int -> Fault)
    requires StrictlyInOrder(ms)
    ensures var pending := Pending(ms, s.log);
            !UpAll(s, s.log, ms, faults).failed <==> forall k :: 0 <= k < |pending| ==> Smooth(s, pending, k, faults)
  {
    var pending := Pending(ms, s.log);
    PendingFacts(ms, s.log);
    UpRunsPending(s, s.log, ms, faults);
    assert pending[..0] == [] && pending[0..] == pending;
    assert Versions(pending[..0]) == {} && s.log + {} == s.log;
    assert After(s, pending, 0) == s;
    UpFromSucceeds(s, s.log, pending, 0, faults);
  }

  // ---------------------------------------------------------------- Up and then down again

  ghost predicate DownInverts<D(!new)>(m: Migration<D>) {
    m.down.Some? && forall d :: !m.up(d).failed ==> m.down.value(m.up(d).db) == Effect(d, false)
  }

  function Downs<D>(s: Store<D>, ms: seq<Migration<D>>, n: nat): Result<D>
    decreases n
  {
    if n == 0 then Result(s, false)
    else
      var r := DownOnce(s, ms, NoFault);
      if r.failed then r else Downs(r.store, ms, n - 1)
  }

  lemma {:induction false} LastOfPrefix<D>(ms: seq<Migration<D>>, n: nat, j: nat)
    requires StrictlyInOrder(ms) && j <= n <= |ms| && forall i :: 0 <= i < |ms| ==> ms[i].version > 0
    ensures LastApplied(ms[..n], Versions(ms[..j])) == if j == 0 then None else Some(ms[j - 1])
    decreases n
  {
    if n > 0 {
      assert ms[..n][..n - 1] == ms[..n - 1];
      if j < n {
        LastOfPrefix(ms, n - 1, j);
        assert forall i :: 0 <= i < j ==> ms[..j][i].version < ms[n - 1].version;
      } else {
        LastBefore(ms, n - 1, Versions(ms[..j]));
        assert ms[..j][j - 1].version == ms[j - 1].version;
      }
    }
  }

  lemma {:induction false} LastBefore<D>(ms: seq<Migration<D>>, n: nat, log: set<int>)
    requires StrictlyInOrder(ms) && n < |ms| && forall i :: 0 <= i < |ms| ==> ms[i].version > 0
    ensures var last := LastApplied(ms[..n], log); last.Some? ==> last.value.version < ms[n].version
    decreases n
  {
    if n > 0 {
      assert ms[..n][..n - 1] == ms[..n - 1];
      LastBefore(ms, n - 1, log);
    }
  }

  ghost predicate AllSucceed<D>(db: D, ms: seq<Migration<D>>) {
    forall j :: 0 <= j < |ms| ==> !ms[j].up(Effects(db, ms[..j])).failed
  }

  /** With the first `j` migrations in, one Down takes the last of them out again. */
  lemma DownTakesBack<D(!new)>(db: D, ms: seq<Migration<D>>, j: nat)
    requires StrictlyInOrder(ms) && 0 < j <= |ms| && !ms[j - 1].up(Effects(db, ms[..j - 1])).failed
    requires DownInverts(ms[j - 1]) && forall i :: 0 <= i < |ms| ==> ms[i].version > 0
    ensures DownOnce(Store(Effects(db, ms[..j]), Versions(ms[..j])), ms, NoFault)
         == Result(Store(Effects(db, ms[..j - 1]), Versions(ms[..j - 1])), false)
  {
    assert ms[..|ms|] == ms;
    LastOfPrefix(ms, |ms|, j);
    EffectsStep(db, ms, j - 1);
    VersionsStep(ms, j - 1);
    assert ms[j - 1].version in Versions(ms[..j]);
    assert ms[j - 1].version !in Versions(ms[..j - 1]);
    assert Versions(ms[..j]) - {ms[j - 1].version} == Versions(ms[..j - 1]);
  }

  lemma {:induction false} DownsUndo<D(!new)>(db: D, ms: seq<Migration<D>>, j: nat)
    requires StrictlyInOrder(ms) && j <= |ms| && AllSucceed(db, ms)
    requires forall i :: 0 <= i < |ms| ==> ms[i].version > 0
    requires forall i :: 0 <= i < |ms| ==> DownInverts(ms[i])
    ensures Downs(Store(Effects(db, ms[..j]), Versions(ms[..j])), ms, j) == Result(Store(db, {}), false)
    decreases j
  {
    if j > 0 {
      DownTakesBack(db, ms, j);
      DownsUndo(db, ms, j - 1);
    } else {
      assert ms[..0] == [];
      assert Versions(ms[..0]) == {};
    }
  }

  /** From an empty control table, as many Downs as Up ran migrations restore the starting database. */
  lemma DownsRestore<D(!new)>(db: D, ms: seq<Migration<D>>, faults: int -> Fault)
    requires StrictlyInOrder(ms) && !UpAll(Store(db, {}), {}, ms, faults).failed
    requires forall i :: 0 <= i < |ms| ==> ms[i].version > 0 && DownInverts(ms[i])
    ensures Downs(UpAll(Store(db, {}), {}, ms, faults).store, ms, |ms|) == Result(Store(db, {}), false)
  {
    UpFromEmpty(db, ms, faults);
    assert ms[..|ms|] == ms;
    DownsUndo(db, ms, |ms|);
  }

  lemma UpFromEmpty<D>(db: D, ms: seq<Migration<D>>, faults: int -> Fault)
    requires StrictlyInOrder(ms) && !UpAll(Store(db, {}), {}, ms, faults).failed
    ensures AllSucceed(db, ms) && UpAll(Store(db, {}), {}, ms, faults).store == Store(Effects(db, ms), Versions(ms))
  {
    var s := Store(db, {});
    AllPending(ms);
    UpTheorem(s, ms, faults);
    SuccessAll(s, ms, 0, s, faults);
    assert ms[..|ms|] == ms;
    assert {} + Versions(ms) == Versions(ms);
  }

  lemma {:induction false} AllPending<D>(ms: seq<Migration<D>>)
    ensures Pending(ms, {}) == ms
    decreases |ms|
  {
    if ms != [] {
      AllPending(ms[1..]);
    }
  }

  /** If Up went through, none of the migration functions failed on its way. */
  lemma {:induction false} SuccessAll<D>(s: Store<D>, ms: seq<Migration<D>>, k: nat, at: Store<D>, faults: int -> Fault)
    requires k <= |ms| && at.db == Effects(s.db, ms[..k]) && !UpAll(at, {}, ms[k..], faults).failed
    requires forall j :: 0 <= j < k ==> !ms[j].up(Effects(s.db, ms[..j])).failed
    ensures AllSucceed(s.db, ms)
    decreases |ms| - k
  {
    if k < |ms| {
      assert ms[k..][1..] == ms[k + 1..];
      EffectsStep(s.db, ms, k);
      SuccessAll(s, ms, k + 1, RunUp(at, ms[k], faults(ms[k].version)).store, faults);
    }
  }
}
