/**
 Whole runs of one shard, one operation at a time: what every operation keeps,
 and which keys the sampling policy is bound to keep.
 */
module ShardRuns {
  import opened Bytes
  import opened Entries
  import opened ShardSpec
  import opened Eviction

  /**
   An operation with the clock reading it took and the removals its own eviction
   or sweep made, both as the environment and the table's order had them.
   */
  datatype Op =
    | Insert(key: Key, value: Value, expiresAt: nat, now: nat, removed: seq<Removal>)
    | Get(key: Key, now: nat)
    | Delete(key: Key)
    | Sweep(now: nat, removed: seq<Removal>)

  /** The state in which an insert begins to evict. */
  function Stored(s: State, k: Key, v: Value, expiresAt: nat): State {
    Update(Tick(s), k, v, expiresAt, s.clock)
  }

  ghost predicate Step(capacity: nat, sample: nat, s: State, op: Op, t: State) {
    match op
    case Insert(k, v, e, now, removed) =>
      && Evicts(Stored(s, k, v, e), capacity, sample, now, removed)
      && t == Counted(DropAll(Stored(s, k, v, e), removed), removed)
    case Get(k, now) => t == Lookup(s, k, now).0
    case Delete(k) => t == Remove(s, k).0
    case Sweep(now, removed) =>
      && IsSweep(s, now, removed)
      && t == Counted(DropAll(s, removed), removed)
  }

  ghost predicate Run(capacity: nat, sample: nat, ss: seq<State>, ops: seq<Op>) {
    && |ss| == |ops| + 1
    && forall i :: 0 <= i < |ops| ==> Step(capacity, sample, ss[i], ops[i], ss[i + 1])
  }

  /** Every operation keeps the counters exact, the stamps distinct and the shard within budget. */
  lemma StepKeeps(capacity: nat, sample: nat, s: State, op: Op, t: State)
    requires Inv(s) && s.bytes <= capacity && Step(capacity, sample, s, op, t)
    ensures Inv(t) && t.bytes <= capacity
  {
    hide Removable, Rounds, DropAll, Count, TotalRam;
    match op
    case Insert(k, v, e, now, removed) =>
      InsertKeeps(s, k, v, e);
      DropAllKeeps(Stored(s, k, v, e), removed);
    case Get(k, now) =>
      LookupKeeps(s, k, now);
      if k in s.entries {
        DropKeeps(s, k);
      }
    case Delete(k) =>
      RemoveKeeps(s, k);
      if k in s.entries {
        DropKeeps(s, k);
      }
    case Sweep(now, removed) =>
      DropAllKeeps(s, removed);
      SweepsNothing(s, now);
  }

  lemma {:induction false} RunKeeps(capacity: nat, sample: nat, ss: seq<State>, ops: seq<Op>, n: nat)
    requires Run(capacity, sample, ss, ops) && n <= |ops|
    requires Inv(ss[0]) && ss[0].bytes <= capacity
    ensures Inv(ss[n]) && ss[n].bytes <= capacity
  {
    hide Step, Inv;
    if n == 0 {
    } else {
      RunKeeps(capacity, sample, ss, ops, n - 1);
      assert Step(capacity, sample, ss[n - 1], ops[n - 1], ss[n - 1 + 1]);
      StepKeeps(capacity, sample, ss[n - 1], ops[n - 1], ss[n]);
    }
  }

  /** An insert removes nothing exactly when what it leaves in the shard is within its budget. */
  lemma InsertEvictsExactly(capacity: nat, sample: nat, s: State, k: Key, v: Value, e: nat, now: nat,
                            removed: seq<Removal>)
    requires Inv(s) && Evicts(Stored(s, k, v, e), capacity, sample, now, removed)
    ensures removed == [] <==>
              s.bytes + |k| + |v| + 96 - (if k in s.entries then |k| + |s.entries[k].value| + 96 else 0) <= capacity
  {
    hide Evicts, Update;
    UpdateKeeps(Tick(s), k, v, e, s.clock);
    LastRemovalNecessary(Stored(s, k, v, e), capacity, sample, now, removed);
  }

  // ---- the working set ----

  /** The key an operation stamps, if it stamps one: an insert's, or a hit's. */
  function Stamps(s: State, op: Op): set<Key> {
    match op
    case Insert(k, _, _, _, _) => {k}
    case Get(k, now) => if k in s.entries && !s.entries[k].IsExpired(now) then {k} else {}
    case Delete(_) => {}
    case Sweep(_, _) => {}
  }

  function RecentKeys(ss: seq<State>, ops: seq<Op>, n: nat): set<Key>
    requires 1 <= n <= |ops| < |ss|
  {
    if n == 1 then {} else RecentKeys(ss, ops, n - 1) + Stamps(ss[n - 1], ops[n - 1])
  }

  /** The wall-clock reading an operation took, if it took one. */
  function Clock(op: Op): Option<nat> {
    match op
    case Insert(_, _, _, now, _) => Some(now)
    case Get(_, now) => Some(now)
    case Delete(_) => None
    case Sweep(now, _) => Some(now)
  }

  /** An expiry no reading in the operation reaches. */
  predicate LiveThrough(expiresAt: nat, op: Op) {
    expiresAt == 0 || (Clock(op).Some? ==> Clock(op).value < expiresAt)
  }

  ghost predicate ChargedAtMost(m: Table, most: nat) {
    forall x :: x in m ==> EntryRam(x, m[x].value) <= most
  }

  predicate InsertAtMost(op: Op, most: nat) {
    op.Insert? ==> EntryRam(op.key, op.value) <= most
  }

  /** `k` is present with this value and expiry, and nothing outside `recent` was stamped after it. */
  ghost predicate Kept(s: State, k: Key, v: Value, expiresAt: nat, recent: set<Key>) {
    && k in s.entries && s.entries[k].value == v && s.entries[k].expiresAt == expiresAt
    && forall x :: x in s.entries && s.entries[x].lastAccess > s.entries[k].lastAccess ==> x in recent
  }

  /** An operation that accesses `k`, and what it leaves under it. */
  predicate Accesses(s: State, op: Op, k: Key, v: Value, expiresAt: nat) {
    match op
    case Insert(x, y, e, _, _) => x == k && y == v && e == expiresAt
    case Get(x, now) =>
      && x == k && k in s.entries && !s.entries[k].IsExpired(now)
      && s.entries[k].value == v && s.entries[k].expiresAt == expiresAt
    case Delete(_) => false
    case Sweep(_, _) => false
  }

  lemma PassKeeps(capacity: nat, sample: nat, s: State, now: nat, removed: seq<Removal>,
                  most: nat, k: Key, v: Value, expiresAt: nat, recent: set<Key>)
    requires Inv(s) && Evicts(s, capacity, sample, now, removed)
    requires sample >= 2 && (sample - 1) * most <= capacity && ChargedAtMost(s.entries, most)
    requires Kept(s, k, v, expiresAt, recent) && |recent| <= sample - 2
    requires expiresAt == 0 || now < expiresAt
    ensures Kept(DropAll(s, removed), k, v, expiresAt, recent)
    ensures ChargedAtMost(DropAll(s, removed).entries, most)
  {
    EvictionSparesWorkingSet(s, capacity, sample, now, removed, most, k, recent);
  }

  lemma FirstAccess(capacity: nat, sample: nat, s: State, op: Op, t: State,
                    most: nat, k: Key, v: Value, expiresAt: nat)
    requires Inv(s) && Step(capacity, sample, s, op, t)
    requires sample >= 2 && (sample - 1) * most <= capacity
    requires ChargedAtMost(s.entries, most) && InsertAtMost(op, most)
    requires Accesses(s, op, k, v, expiresAt) && LiveThrough(expiresAt, op)
    ensures Kept(t, k, v, expiresAt, {}) && ChargedAtMost(t.entries, most)
  {
    hide Removable, Rounds, DropAll, Count, TotalRam;
    if op.Insert? {
      InsertKeeps(s, k, v, expiresAt);
      PassKeeps(capacity, sample, Stored(s, k, v, expiresAt), op.now, op.removed, most, k, v, expiresAt, {});
    }
  }

  lemma LaterInsert(capacity: nat, sample: nat, s: State, op: Op, t: State,
                    most: nat, k: Key, v: Value, expiresAt: nat, recent: set<Key>)
    requires Inv(s) && op.Insert? && Step(capacity, sample, s, op, t)
    requires sample >= 2 && (sample - 1) * most <= capacity
    requires ChargedAtMost(s.entries, most) && InsertAtMost(op, most)
    requires Kept(s, k, v, expiresAt, recent) && |recent + {op.key}| <= sample - 2
    requires k != op.key && LiveThrough(expiresAt, op)
    ensures Kept(t, k, v, expiresAt, recent + {op.key}) && ChargedAtMost(t.entries, most)
  {
    hide Removable, Rounds, DropAll, Count, TotalRam, Evicts;
    InsertKeeps(s, op.key, op.value, op.expiresAt);
    PassKeeps(capacity, sample, Stored(s, op.key, op.value, op.expiresAt), op.now, op.removed, most, k, v, expiresAt,
              recent + {op.key});
  }

  lemma LaterOther(capacity: nat, sample: nat, s: State, op: Op, t: State,
                   most: nat, k: Key, v: Value, expiresAt: nat, recent: set<Key>)
    requires Inv(s) && !op.Insert? && Step(capacity, sample, s, op, t) && ChargedAtMost(s.entries, most)
    requires Kept(s, k, v, expiresAt, recent)
    requires op != Delete(k) && k !in Stamps(s, op) && LiveThrough(expiresAt, op)
    ensures Kept(t, k, v, expiresAt, recent + Stamps(s, op)) && ChargedAtMost(t.entries, most)
  {
    hide Removable, DropAll, Count, Exact;
  }

  lemma LaterStep(capacity: nat, sample: nat, s: State, op: Op, t: State,
                  most: nat, k: Key, v: Value, expiresAt: nat, recent: set<Key>)
    requires Inv(s) && Step(capacity, sample, s, op, t)
    requires sample >= 2 && (sample - 1) * most <= capacity
    requires ChargedAtMost(s.entries, most) && InsertAtMost(op, most)
    requires Kept(s, k, v, expiresAt, recent) && |recent + Stamps(s, op)| <= sample - 2
    requires op != Delete(k) && k !in Stamps(s, op) && LiveThrough(expiresAt, op)
    ensures Kept(t, k, v, expiresAt, recent + Stamps(s, op)) && ChargedAtMost(t.entries, most)
  {
    hide Step, Kept, ChargedAtMost, LiveThrough;
    if op.Insert? {
      LaterInsert(capacity, sample, s, op, t, most, k, v, expiresAt, recent);
    } else {
      LaterOther(capacity, sample, s, op, t, most, k, v, expiresAt, recent);
    }
  }

  /**
   The working-set guarantee.  A key that was accessed, was not deleted and has
   not expired is still a hit after any run of other operations that stamped at
   most `sample - 2` distinct other keys.
   */
  lemma {:induction false} WorkingSetHits(capacity: nat, sample: nat, ss: seq<State>, ops: seq<Op>, n: nat,
                                          most: nat, k: Key, v: Value, expiresAt: nat)
    requires Run(capacity, sample, ss, ops) && Inv(ss[0]) && ss[0].bytes <= capacity && 1 <= n <= |ops|
    requires sample >= 2 && (sample - 1) * most <= capacity
    requires ChargedAtMost(ss[0].entries, most) && forall i :: 0 <= i < n ==> InsertAtMost(ops[i], most)
    requires Accesses(ss[0], ops[0], k, v, expiresAt)
    requires forall i :: 1 <= i < n ==> ops[i] != Delete(k) && k !in Stamps(ss[i], ops[i])
    requires forall i :: 0 <= i < n ==> LiveThrough(expiresAt, ops[i])
    requires |RecentKeys(ss, ops, n)| <= sample - 2
    ensures forall now: nat :: expiresAt == 0 || now < expiresAt ==> Lookup(ss[n], k, now).1.answer == Some(v)
    ensures Kept(ss[n], k, v, expiresAt, RecentKeys(ss, ops, n)) && ChargedAtMost(ss[n].entries, most)
  {
    if n == 1 {
      FirstAccess(capacity, sample, ss[0], ops[0], ss[1], most, k, v, expiresAt);
    } else {
      Subset(RecentKeys(ss, ops, n - 1), RecentKeys(ss, ops, n));
      WorkingSetHits(capacity, sample, ss, ops, n - 1, most, k, v, expiresAt);
      RunKeeps(capacity, sample, ss, ops, n - 1);
      LaterStep(capacity, sample, ss[n - 1], ops[n - 1], ss[n], most, k, v, expiresAt, RecentKeys(ss, ops, n - 1));
    }
  }

  // ---- counters ----

  /** What an operation removed of the cache's own accord. */
  function Removals(s: State, op: Op): seq<Removal> {
    match op
    case Insert(_, _, _, _, removed) => removed
    case Get(k, now) => Lookup(s, k, now).1.removed
    case Delete(_) => []
    case Sweep(_, removed) => removed
  }

  function RemovalsOf(ss: seq<State>, ops: seq<Op>, n: nat): seq<Removal>
    requires n <= |ops| < |ss|
  {
    if n == 0 then [] else RemovalsOf(ss, ops, n - 1) + Removals(ss[n - 1], ops[n - 1])
  }

  lemma {:induction false} CountAppend(a: seq<Removal>, b: seq<Removal>, cause: Cause)
    ensures Count(a + b, cause) == Count(a, cause) + Count(b, cause)
  {
    if b == [] {
      assert a + b == a;
    } else {
      CountAppend(a, Init(b), cause);
      assert Init(a + b) == a + Init(b) && Last(a + b) == Last(b);
    }
  }

  lemma {:induction false} DropAllCounters(s: State, removed: seq<Removal>)
    requires Removable(s, removed)
    ensures var t := DropAll(s, removed);
            t.evictions == s.evictions && t.expired == s.expired && t.hits == s.hits && t.misses == s.misses
  {
    if removed == [] {
    } else {
      DropAllCounters(s, Init(removed));
    }
  }

  lemma StepCounts(capacity: nat, sample: nat, s: State, op: Op, t: State)
    requires Step(capacity, sample, s, op, t)
    ensures t.evictions == s.evictions + Count(Removals(s, op), Evicted)
    ensures t.expired == s.expired + Count(Removals(s, op), Expired)
    ensures var answered := op.Get? && op.key in s.entries && !s.entries[op.key].IsExpired(op.now);
            && t.hits == s.hits + (if answered then 1 else 0)
            && t.misses == s.misses + (if op.Get? && !answered then 1 else 0)
            && (op.Get? ==> Lookup(s, op.key, op.now).1.answer.Some? == answered)
  {
    hide Removable, Rounds, DropAll, Count, TotalRam;
    EvictsNothing(s, 0, 1, 0);
    match op
    case Insert(k, v, e, now, removed) => DropAllCounters(Stored(s, k, v, e), removed);
    case Get(k, now) =>
      CountExtend([], Removal(k, Expired));
      assert [] + [Removal(k, Expired)] == [Removal(k, Expired)];
    case Delete(k) =>
    case Sweep(now, removed) => DropAllCounters(s, removed);
  }

  /** The `i`th operation is a get that is answered with a value, or with none. */
  predicate AnsweredGet(ss: seq<State>, ops: seq<Op>, i: nat, answered: bool)
    requires i < |ops| < |ss|
  {
    ops[i].Get? && Lookup(ss[i], ops[i].key, ops[i].now).1.answer.Some? == answered
  }

  /** The gets of a run that were answered with a value, or those that were not, by their places. */
  function Gets(ss: seq<State>, ops: seq<Op>, n: nat, answered: bool): set<nat>
    requires n <= |ops| < |ss|
  {
    set i: nat | i < n && AnsweredGet(ss, ops, i, answered)
  }

  lemma GetsMore(ss: seq<State>, ops: seq<Op>, n: nat, answered: bool)
    requires n < |ops| < |ss|
    ensures |Gets(ss, ops, n + 1, answered)| ==
              |Gets(ss, ops, n, answered)| + if AnsweredGet(ss, ops, n, answered) then 1 else 0
  {
    hide AnsweredGet;
    var before, after := Gets(ss, ops, n, answered), Gets(ss, ops, n + 1, answered);
    assert n !in before;
    if AnsweredGet(ss, ops, n, answered) {
      assert after == before + {n};
    } else {
      assert after == before;
    }
  }

  /** Over any run `hits` counts the gets answered with a value and `misses` the others. */
  lemma {:induction false} HitsAreAnswers(capacity: nat, sample: nat, ss: seq<State>, ops: seq<Op>, n: nat)
    requires Run(capacity, sample, ss, ops) && n <= |ops|
    ensures ss[n].hits == ss[0].hits + |Gets(ss, ops, n, true)|
    ensures ss[n].misses == ss[0].misses + |Gets(ss, ops, n, false)|
  {
    hide Step, Gets, Lookup;
    if n == 0 {
      assert Gets(ss, ops, 0, true) == Gets(ss, ops, 0, false) == {} by { NoGets(ss, ops); }
    } else {
      HitsAreAnswers(capacity, sample, ss, ops, n - 1);
      assert Step(capacity, sample, ss[n - 1], ops[n - 1], ss[n - 1 + 1]);
      StepCounts(capacity, sample, ss[n - 1], ops[n - 1], ss[n]);
      GetsMore(ss, ops, n - 1, true);
      GetsMore(ss, ops, n - 1, false);
      assert AnsweredGet(ss, ops, n - 1, true) <==> ops[n - 1].Get? && !AnsweredGet(ss, ops, n - 1, false);
    }
  }

  lemma NoGets(ss: seq<State>, ops: seq<Op>)
    requires |ops| < |ss|
    ensures Gets(ss, ops, 0, true) == Gets(ss, ops, 0, false) == {}
  {
  }

  /**
   With one operation at a time no race is lost: the two removal counters are
   exactly the removals reported, over any run.
   */
  lemma {:induction false} CountersAreRemovals(capacity: nat, sample: nat, ss: seq<State>, ops: seq<Op>, n: nat)
    requires Run(capacity, sample, ss, ops) && n <= |ops|
    ensures ss[n].evictions == ss[0].evictions + Count(RemovalsOf(ss, ops, n), Evicted)
    ensures ss[n].expired == ss[0].expired + Count(RemovalsOf(ss, ops, n), Expired)
  {
    hide Step, Count;
    if n == 0 {
      EvictsNothing(ss[0], 0, 1, 0);
    } else {
      CountersAreRemovals(capacity, sample, ss, ops, n - 1);
      assert Step(capacity, sample, ss[n - 1], ops[n - 1], ss[n - 1 + 1]);
      StepCounts(capacity, sample, ss[n - 1], ops[n - 1], ss[n]);
      CountAppend(RemovalsOf(ss, ops, n - 1), Removals(ss[n - 1], ops[n - 1]), Evicted);
      CountAppend(RemovalsOf(ss, ops, n - 1), Removals(ss[n - 1], ops[n - 1]), Expired);
    }
  }
}
