/**
 The two models of a shard agree: whatever one operation at a time does, as the
 engine's methods are proved to do it, some run of the interleaved machine does.
 */
module Sequential {
  import opened Bytes
  import opened Entries
  import opened ShardSpec
  import opened Eviction
  import opened ShardRuns
  import opened Interleaving

  /** The machine gets from `m` to `n` in some number of steps. */
  ghost predicate Leads(c: Config, m: Machine, n: Machine) {
    exists ms :: IsPath(c, ms, m, n)
  }

  ghost predicate IsPath(c: Config, ms: seq<Machine>, m: Machine, n: Machine) {
    && ms != [] && ms[0] == m && Last(ms) == n
    && forall i :: 0 <= i < |ms| - 1 ==> Next(c, ms[i], ms[i + 1])
  }

  lemma Stay(c: Config, m: Machine)
    ensures Leads(c, m, m)
  {
    assert IsPath(c, [m], m, m);
  }

  lemma Then(c: Config, m: Machine, n: Machine, t: Tid, l: Label)
    requires Leads(c, m, n) && Enabled(c, n, t, l)
    ensures Leads(c, m, Apply(c, n, t, l))
  {
    hide Enabled, Apply;
    var ms :| IsPath(c, ms, m, n);
    var o := Apply(c, n, t, l);
    var more := ms + [o];
    forall i | 0 <= i < |more| - 1
      ensures Next(c, more[i], more[i + 1])
    {
      if i < |ms| - 1 {
        assert Next(c, ms[i], ms[i + 1]);
      }
    }
    assert IsPath(c, more, m, o);
  }

  lemma Join(c: Config, m: Machine, n: Machine, o: Machine)
    requires Leads(c, m, n) && Leads(c, n, o)
    ensures Leads(c, m, o)
  {
    hide Next;
    var xs :| IsPath(c, xs, m, n);
    var ys :| IsPath(c, ys, n, o);
    var all := xs + ys[1..];
    forall i | 0 <= i < |all| - 1
      ensures Next(c, all[i], all[i + 1])
    {
      if i < |xs| - 1 {
        assert Next(c, xs[i], xs[i + 1]);
      } else {
        assert Next(c, ys[i + 1 - |xs|], ys[i + 2 - |xs|]);
      }
    }
    assert IsPath(c, all, m, o);
  }

  /** The mirrors show what the counters are. */
  ghost predicate Mirrored(m: Machine) {
    && m.published != [] && Last(m.published) == m.st.bytes
    && m.ttlPublished != [] && Last(m.ttlPublished) == m.st.ttlKeys
  }

  /** No operation is in progress. */
  ghost predicate Idle(m: Machine) {
    m.threads == map[] && m.lock == None && Mirrored(m)
  }

  /** One thread, in the given place, is all there is. */
  ghost predicate Only(m: Machine, pc: Pc) {
    m.threads == map[0 := pc] && Mirrored(m)
  }

  // ---- the end of every operation: count, notify, finish ----

  lemma {:induction false} Notified(c: Config, m: Machine, removed: seq<Removal>) returns (n: Machine)
    requires Only(m, Notifying(removed)) && m.lock == None
    ensures Leads(c, m, n) && Idle(n) && n.st == m.st
    decreases |removed|
  {
    Stay(c, m);
    if removed == [] {
      Then(c, m, m, 0, DoFinish);
      n := Apply(c, m, 0, DoFinish);
      assert n.threads == map[];
    } else {
      Then(c, m, m, 0, DoNotify);
      var o := Apply(c, m, 0, DoNotify);
      assert o.threads == map[0 := Notifying(removed[1..])];
      n := Notified(c, o, removed[1..]);
      Join(c, m, o, n);
    }
  }

  /** A holder of the lock lets go of it and reports. */
  lemma Released(c: Config, m: Machine, pc: Pc) returns (n: Machine)
    requires Only(m, pc) && pc.Holder() && Enabled(c, m, 0, DoRelease)
    ensures Leads(c, m, n) && Idle(n) && n.st == Counted(m.st, pc.removed)
  {
    hide Counted;
    Stay(c, m);
    Then(c, m, m, 0, DoRelease);
    var o := Apply(c, m, 0, DoRelease);
    Then(c, m, o, 0, DoCountUp);
    var p := Apply(c, o, 0, DoCountUp);
    CountedKeepsBytes(o.st, pc.removed);
    n := Notified(c, p, pc.removed);
    Join(c, m, p, n);
  }

  lemma CountedKeepsBytes(s: State, removed: seq<Removal>)
    ensures Counted(s, removed).bytes == s.bytes && Counted(s, removed).ttlKeys == s.ttlKeys
  {
  }

  // ---- eviction ----

  /** The state of a pass that has taken `removed` out of the table it began with. */
  ghost predicate Underway(m: Machine, pc: Pc, st: State, rounds: int, removed: seq<Removal>) {
    && pc.Evicting? && m.lock == Some(0) && m.st == st
    && Only(m, pc.(rounds := rounds, removed := removed))
  }

  /** The rounds guard has at least one round to spare. */
  predicate Enough(rounds: int, st: State) {
    rounds >= |st.entries| + 1
  }

  lemma OneRound(c: Config, m: Machine, pc: Pc, st: State, rounds: int, removed: seq<Removal>, r: Removal)
    returns (n: Machine)
    requires Underway(m, pc, st, rounds, removed) && Exact(st) && Enough(rounds, st)
    requires st.bytes > c.capacity && r.key in st.entries && CanPick(st.entries, c.sample, pc.now, r)
    ensures Leads(c, m, n) && Underway(n, pc, Drop(st, r.key), rounds - 1, removed + [r])
    ensures Enough(rounds - 1, Drop(st, r.key))
  {
    hide CanPick, Exact, Drop;
    MoreThanNone(st, c.capacity);
    OneFewer(st, r.key);
    Stay(c, m);
    Then(c, m, m, 0, DoEvictOne(r));
    n := Apply(c, m, 0, DoEvictOne(r));
  }

  /** The rounds of a pass, taken one by one under the lock. */
  lemma {:induction false} RoundsTaken(c: Config, m: Machine, pc: Pc, st: State, removed: seq<Removal>)
    returns (n: Machine)
    requires pc.Evicting? && Underway(m, pc, st, pc.rounds, []) && Exact(st) && Enough(pc.rounds, st)
    requires Removable(st, removed) && Rounds(st, c.capacity, c.sample, pc.now, removed)
    ensures Leads(c, m, n) && Underway(n, pc, DropAll(st, removed), pc.rounds - |removed|, removed)
    ensures Enough(pc.rounds - |removed|, DropAll(st, removed))
    decreases |removed|
  {
    hide CanPick, Exact, Drop, Underway, Rounds, Removable, DropAll, Leads, Init, Last, KeySet, Enough;
    if removed == [] {
      EvictsNothing(st, c.capacity, c.sample, pc.now);
      Stay(c, m);
      n := m;
    } else {
      var r := Last(removed);
      LastRound(st, c.capacity, c.sample, pc.now, removed);
      var o := RoundsTaken(c, m, pc, st, Init(removed));
      var s := DropAll(st, Init(removed));
      n := OneRound(c, o, pc, s, pc.rounds - |Init(removed)|, Init(removed), r);
      Join(c, m, o, n);
    }
  }

  lemma LastRound(st: State, capacity: nat, sample: nat, now: nat, removed: seq<Removal>)
    requires Exact(st) && Removable(st, removed) && removed != []
    requires Rounds(st, capacity, sample, now, removed)
    ensures Removable(st, Init(removed)) && Rounds(st, capacity, sample, now, Init(removed))
    ensures var s, r := DropAll(st, Init(removed)), Last(removed);
            && Exact(s) && s.bytes > capacity && r.key in s.entries && CanPick(s.entries, sample, now, r)
            && DropAll(st, removed) == Drop(s, r.key)
    ensures Init(removed) + [Last(removed)] == removed && |Init(removed)| == |removed| - 1
  {
    hide CanPick, Exact, Drop, KeySet;
    DropAllKeeps(st, Init(removed));
  }

  lemma MoreThanNone(s: State, capacity: nat)
    requires Exact(s)
    ensures s.bytes > capacity ==> s.entries != map[]
  {
  }

  lemma OneFewer(s: State, k: Key)
    requires k in s.entries
    ensures |Drop(s, k).entries| == |s.entries| - 1
  {
    assert s.entries.Keys == Drop(s, k).entries.Keys + {k};
    assert |s.entries| == |s.entries.Keys| && |Drop(s, k).entries| == |Drop(s, k).entries.Keys|;
  }

  /** A whole pass, from taking the lock to the last notice. */
  lemma PassHappens(c: Config, m: Machine, pc: Pc, now: nat, removed: seq<Removal>) returns (n: Machine)
    requires c.sample >= 1 && Only(m, pc) && pc.EvictLock? && m.lock == None && Exact(m.st)
    requires m.st.bytes > c.capacity && Evicts(m.st, c.capacity, c.sample, now, removed)
    ensures Leads(c, m, n) && Idle(n) && n.st == Counted(DropAll(m.st, removed), removed)
  {
    hide Counted, CanPick, Exact, Rounds, Removable, DropAll;
    Stay(c, m);
    Then(c, m, m, 0, DoLockToEvict(now));
    var g := Apply(c, m, 0, DoLockToEvict(now));
    var held := g.threads[0];
    var h := RoundsTaken(c, g, held, m.st, removed);
    Join(c, m, g, h);
    n := Released(c, h, h.threads[0]);
    Join(c, m, h, n);
  }

  /** The entry stored, and the mirror read back at its own publish. */
  lemma StoreHappens(c: Config, m: Machine, k: Key, v: Value, e: nat) returns (n: Machine)
    requires Idle(m)
    ensures Leads(c, m, n) && n.st == Stored(m.st, k, v, e) && n.lock == None
    ensures exists pc :: Only(n, pc) && if n.st.bytes <= c.capacity then pc == Notifying([]) else pc.EvictLock?
  {
    hide Update;
    Stay(c, m);
    Then(c, m, m, 0, DoBegin(InsertStart(k, v, e)));
    var a := Apply(c, m, 0, DoBegin(InsertStart(k, v, e)));
    Then(c, m, a, 0, DoStamp);
    var b := Apply(c, a, 0, DoStamp);
    Then(c, m, b, 0, DoStore);
    var d := Apply(c, b, 0, DoStore);
    var at := |b.published|;
    Then(c, m, d, 0, DoReadHint(at));
    n := Apply(c, d, 0, DoReadHint(at));
    assert Only(n, n.threads[0]);
  }

  lemma InsertHappens(c: Config, m: Machine, k: Key, v: Value, e: nat, now: nat, removed: seq<Removal>)
    returns (n: Machine)
    requires c.sample >= 1 && Idle(m) && Inv(m.st)
    requires Evicts(Stored(m.st, k, v, e), c.capacity, c.sample, now, removed)
    ensures Leads(c, m, n) && Idle(n)
    ensures n.st == Counted(DropAll(Stored(m.st, k, v, e), removed), removed)
  {
    hide Exact, CanPick, Rounds, Removable, DropAll, Update, Counted;
    InsertKeeps(m.st, k, v, e);
    var s := Stored(m.st, k, v, e);
    var f := StoreHappens(c, m, k, v, e);
    var pc :| Only(f, pc) && if s.bytes <= c.capacity then pc == Notifying([]) else pc.EvictLock?;
    LastRemovalNecessary(s, c.capacity, c.sample, now, removed);
    EvictsNothing(s, c.capacity, c.sample, now);
    if s.bytes <= c.capacity {
      n := Notified(c, f, []);
    } else {
      n := PassHappens(c, f, pc, now, removed);
    }
    Join(c, m, f, n);
  }

  // ---- lookup, delete, sweep ----

  /** A lookup's answer is settled under one lock or the other. */
  lemma LookupSettles(c: Config, m: Machine, k: Key, now: nat) returns (n: Machine, pc: Pc)
    requires Idle(m)
    ensures Leads(c, m, n) && Only(n, pc) && pc.LookupDone? && n.lock == None
    ensures CountLookup(n.st, pc.found) == Lookup(m.st, k, now).0
  {
    hide Drop, Leads, CountLookup;
    Stay(c, m);
    var l := DoBegin(LookupStart(k, now, |m.trace|));
    Then(c, m, m, 0, l);
    var a := Apply(c, m, 0, l);
    Then(c, m, a, 0, DoCheck);
    n := Apply(c, a, 0, DoCheck);
    if n.threads[0].LookupRetry? {
      Then(c, m, n, 0, DoRecheck);
      n := Apply(c, n, 0, DoRecheck);
    }
    pc := n.threads[0];
  }

  lemma GetHappens(c: Config, m: Machine, k: Key, now: nat) returns (n: Machine)
    requires Idle(m)
    ensures Leads(c, m, n) && Idle(n) && n.st == Lookup(m.st, k, now).0
  {
    hide Lookup, Leads;
    var b, pc := LookupSettles(c, m, k, now);
    Then(c, m, b, 0, DoCountAnswer);
    var d := Apply(c, b, 0, DoCountAnswer);
    n := Notified(c, d, pc.found.removed);
    Join(c, m, d, n);
  }

  lemma DeleteHappens(c: Config, m: Machine, k: Key) returns (n: Machine)
    requires Idle(m)
    ensures Leads(c, m, n) && Idle(n) && n.st == Remove(m.st, k).0
  {
    hide Drop;
    Stay(c, m);
    Then(c, m, m, 0, DoBegin(DeleteStart(k)));
    var a := Apply(c, m, 0, DoBegin(DeleteStart(k)));
    Then(c, m, a, 0, DoDelete);
    var b := Apply(c, a, 0, DoDelete);
    n := Notified(c, b, []);
    Join(c, m, b, n);
  }

  function KeysOf(removed: seq<Removal>): (keys: seq<Key>)
    ensures |keys| == |removed|
  {
    if removed == [] then [] else KeysOf(Init(removed)) + [Last(removed).key]
  }

  lemma {:induction false} KeysListed(s: State, removed: seq<Removal>)
    requires Removable(s, removed)
    ensures forall k :: k in KeysOf(removed) <==> k in KeySet(removed)
    ensures forall i, j :: 0 <= i < j < |removed| ==> KeysOf(removed)[i] != KeysOf(removed)[j]
  {
    if removed == [] {
    } else {
      KeysListed(s, Init(removed));
      var n := |removed| - 1;
      assert forall i :: 0 <= i < n ==>
        KeysOf(removed)[i] == KeysOf(Init(removed))[i] && KeysOf(removed)[i] in KeySet(Init(removed));
    }
  }

  lemma OneSwept(c: Config, m: Machine, now: nat, k: Key, rest: seq<Key>, removed: seq<Removal>) returns (n: Machine)
    requires Only(m, Sweeping(now, [k] + rest, removed)) && m.lock == Some(0) && k in m.st.entries
    ensures Leads(c, m, n) && n.st == Drop(m.st, k) && n.lock == Some(0)
    ensures Only(n, Sweeping(now, rest, removed + [Removal(k, Expired)]))
  {
    hide Drop, Leads;
    Stay(c, m);
    Then(c, m, m, 0, DoSweepOne);
    n := Apply(c, m, 0, DoSweepOne);
    assert ([k] + rest)[1..] == rest;
  }

  /** A sweep's list, dropped one by one under the lock. */
  lemma {:induction false} SweepTaken(c: Config, m: Machine, now: nat, removed: seq<Removal>, rest: seq<Key>)
    returns (n: Machine)
    requires Only(m, Sweeping(now, KeysOf(removed) + rest, [])) && m.lock == Some(0)
    requires Removable(m.st, removed) && forall r :: r in removed ==> r.cause == Expired
    ensures Leads(c, m, n) && n.st == DropAll(m.st, removed) && n.lock == Some(0)
    ensures Only(n, Sweeping(now, rest, removed))
    decreases |removed|
  {
    hide Drop, Only, Leads;
    if removed == [] {
      assert KeysOf(removed) + rest == rest;
      Stay(c, m);
      n := m;
    } else {
      var r := Last(removed);
      assert KeysOf(removed) + rest == KeysOf(Init(removed)) + ([r.key] + rest);
      var o := SweepTaken(c, m, now, Init(removed), [r.key] + rest);
      n := OneSwept(c, o, now, r.key, rest, Init(removed));
      Join(c, m, o, n);
      assert r == Removal(r.key, Expired) && Init(removed) + [r] == removed;
    }
  }

  lemma SweepBegins(c: Config, m: Machine, now: nat, dead: seq<Key>) returns (n: Machine)
    requires Idle(m) && m.st.ttlKeys != 0 && ListsExpired(m.st, now, dead)
    ensures Leads(c, m, n) && n.st == m.st && n.lock == Some(0) && Only(n, Sweeping(now, dead, []))
  {
    hide ListsExpired;
    var at := |m.ttlPublished| - 1;
    Stay(c, m);
    Then(c, m, m, 0, DoBegin(SweepStart(at)));
    var a := Apply(c, m, 0, DoBegin(SweepStart(at)));
    Then(c, m, a, 0, DoReadClock(at, now));
    var b := Apply(c, a, 0, DoReadClock(at, now));
    Then(c, m, b, 0, DoLockToSweep(dead));
    n := Apply(c, b, 0, DoLockToSweep(dead));
  }

  /** A sweep of a shard with nothing that can expire. */
  lemma SweepSkips(c: Config, m: Machine) returns (n: Machine)
    requires Idle(m) && m.st.ttlKeys == 0
    ensures Leads(c, m, n) && Idle(n) && n.st == m.st
  {
    var at := |m.ttlPublished| - 1;
    Stay(c, m);
    Then(c, m, m, 0, DoBegin(SweepStart(at)));
    var a := Apply(c, m, 0, DoBegin(SweepStart(at)));
    Then(c, m, a, 0, DoSkipSweep(at));
    var b := Apply(c, a, 0, DoSkipSweep(at));
    n := Notified(c, b, []);
    Join(c, m, b, n);
  }

  lemma SweepLists(s: State, now: nat, removed: seq<Removal>)
    requires Exact(s) && IsSweep(s, now, removed)
    ensures ListsExpired(s, now, KeysOf(removed))
  {
    SweepComplete(s, now, removed);
    KeysListed(s, removed);
  }

  lemma SweepHappens(c: Config, m: Machine, now: nat, removed: seq<Removal>) returns (n: Machine)
    requires Idle(m) && Inv(m.st) && IsSweep(m.st, now, removed)
    ensures Leads(c, m, n) && Idle(n) && n.st == Counted(DropAll(m.st, removed), removed)
  {
    hide Counted, DropAll, Exact, Removable, ListsExpired, KeySet, KeysOf, Idle;
    if m.st.ttlKeys == 0 {
      SweptNothing(m.st, now, removed);
      n := SweepSkips(c, m);
    } else {
      SweepLists(m.st, now, removed);
      var d := SweepBegins(c, m, now, KeysOf(removed));
      assert KeysOf(removed) + [] == KeysOf(removed);
      var f := SweepTaken(c, d, now, removed, []);
      n := Released(c, f, f.threads[0]);
      Join(c, m, d, f);
      Join(c, m, f, n);
    }
  }

  lemma SweptNothing(s: State, now: nat, removed: seq<Removal>)
    requires IsSweep(s, now, removed) && s.ttlKeys == 0
    ensures removed == [] && Counted(DropAll(s, removed), removed) == s
  {
    assert removed == [] || Last(removed).key in KeySet(removed);
    SweepsNothing(s, now);
  }

  // ---- whole runs ----

  lemma StepHappens(c: Config, m: Machine, op: Op, s: State) returns (n: Machine)
    requires c.sample >= 1 && Idle(m) && Inv(m.st) && Step(c.capacity, c.sample, m.st, op, s)
    ensures Leads(c, m, n) && Idle(n) && n.st == s
  {
    match op
    case Insert(k, v, e, now, removed) => n := InsertHappens(c, m, k, v, e, now, removed);
    case Get(k, now) => n := GetHappens(c, m, k, now);
    case Delete(k) => n := DeleteHappens(c, m, k);
    case Sweep(now, removed) => n := SweepHappens(c, m, now, removed);
  }

  /**
   Every run of one operation at a time from an empty shard is a run of the
   interleaved machine, so what is proved of all interleavings holds of it.
   */
  lemma {:induction false} SequentialRunsAreRuns(c: Config, ss: seq<State>, ops: seq<Op>, n: nat)
    returns (ms: seq<Machine>)
    requires c.sample >= 1 && Run(c.capacity, c.sample, ss, ops) && ss[0] == INIT && n <= |ops|
    ensures Behavior(c, ms) && Idle(Last(ms)) && Last(ms).st == ss[n]
  {
    hide Step, Next;
    EmptyShard(c.capacity);
    if n == 0 {
      ms := [START];
    } else {
      var front := SequentialRunsAreRuns(c, ss, ops, n - 1);
      RunKeeps(c.capacity, c.sample, ss, ops, n - 1);
      assert Step(c.capacity, c.sample, ss[n - 1], ops[n - 1], ss[n - 1 + 1]);
      var m := StepHappens(c, Last(front), ops[n - 1], ss[n]);
      ms := Continued(c, front, m);
    }
  }

  lemma EmptyShard(capacity: nat)
    ensures Inv(INIT) && INIT.bytes <= capacity
  {
  }

  lemma Continued(c: Config, front: seq<Machine>, m: Machine) returns (ms: seq<Machine>)
    requires Behavior(c, front) && Leads(c, Last(front), m)
    ensures Behavior(c, ms) && Last(ms) == m
  {
    hide Next;
    var ys :| IsPath(c, ys, Last(front), m);
    ms := front + ys[1..];
    forall i | 0 <= i < |ms| - 1
      ensures Next(c, ms[i], ms[i + 1])
    {
      if i < |front| - 1 {
        assert Next(c, front[i], front[i + 1]);
      } else {
        assert Next(c, ys[i + 1 - |front|], ys[i + 2 - |front|]);
      }
    }
  }
}
