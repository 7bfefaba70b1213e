/**
 Two more invariants of the interleaved shard: every removal is counted once and
 notified once, and the history the lock settles is one a flat lossy map allows.
 */
module MachineHistory {
  import opened Entries
  import opened ShardSpec
  import opened Eviction
  import opened History
  import opened Interleaving
  import opened MachineInvariants

  ghost predicate Notices(m: Machine) {
    forall r: Removal :: Copies(m.removals, r) == Copies(m.notified, r) + Sum(m.threads, Holding(r))
  }

  ghost predicate Counters(m: Machine) {
    && m.created == |m.st.entries| + m.deleted + Count(m.removals, Evicted) + Count(m.removals, Expired)
    && m.st.evictions + Sum(m.threads, Uncounted(Evicted)) == Count(m.removals, Evicted)
    && m.st.expired + Sum(m.threads, Uncounted(Expired)) == Count(m.removals, Expired) + m.lostRaces
    && m.st.hits + m.st.misses + Sum(m.threads, OpenLookups) == m.lookups
  }

  ghost predicate Linear(m: Machine) {
    Legal(m.trace) && Replay(m.trace) == Cells(m.st.entries)
  }

  // ---- notices ----

  lemma CopiesMove(removed: seq<Removal>, x: Removal, r: Removal)
    ensures Copies([], r) == 0 && Copies([x], r) == if x == r then 1 else 0
    ensures Copies(removed + [x], r) == Copies(removed, r) + if x == r then 1 else 0
    ensures removed != [] ==> Copies(removed, r) == Copies(removed[1..], r) + if removed[0] == r then 1 else 0
  {
    if removed != [] {
      assert removed == [removed[0]] + removed[1..];
    }
  }

  /** The steps that make, count or report a removal. */
  predicate HandlesRemovals(l: Label) {
    l.DoEvictOne? || l.DoSweepOne? || l.DoRecheck? || l.DoNotify? || l.DoCountUp? || l.DoCountAnswer?
  }

  /** Removals of a kind that are neither notified nor on their way to be: none, whatever the step. */
  function Unaccounted(m: Machine, t: Tid, r: Removal): int {
    Copies(m.removals, r) - Copies(m.notified, r) - WeightAt(m.threads, t, Holding(r))
  }

  lemma NoticesTaken(c: Config, m: Machine, t: Tid, l: Label, r: Removal)
    requires Enabled(c, m, t, l) && (l.DoEvictOne? || l.DoSweepOne? || l.DoRecheck?)
    ensures Unaccounted(Apply(c, m, t, l), t, r) == Unaccounted(m, t, r)
  {
    hide TotalRam, TtlKeys, Update, Drop, Touch, CanPick, Copies;
    var pc := m.threads[t];
    CopiesMove([], r, r);
    match l
    case DoEvictOne(x) =>
      CopiesMove(pc.removed, x, r);
      CopiesMove(m.removals, x, r);
    case DoSweepOne =>
      CopiesMove(pc.removed, Removal(pc.dead[0], Expired), r);
      CopiesMove(m.removals, Removal(pc.dead[0], Expired), r);
    case DoRecheck =>
      CopiesMove(m.removals, Removal(pc.key, Expired), r);
  }

  lemma NoticesReported(c: Config, m: Machine, t: Tid, l: Label, r: Removal)
    requires Enabled(c, m, t, l) && (l.DoNotify? || l.DoCountUp? || l.DoCountAnswer?)
    ensures Unaccounted(Apply(c, m, t, l), t, r) == Unaccounted(m, t, r)
  {
    hide Update, Drop, Touch, Counted, CountLookup, CanPick, Copies;
    var pc := m.threads[t];
    if l.DoNotify? {
      CopiesMove(pc.removed, r, r);
      CopiesMove(m.notified, pc.removed[0], r);
    }
  }

  lemma NoticesQuiet(c: Config, m: Machine, t: Tid, l: Label, r: Removal)
    requires Enabled(c, m, t, l) && !HandlesRemovals(l)
    ensures Unaccounted(Apply(c, m, t, l), t, r) == Unaccounted(m, t, r)
  {
    hide TotalRam, TtlKeys, Update, Drop, Touch, Counted, CountLookup, CanPick, ListsExpired, Copies;
    CopiesMove([], r, r);
  }

  /** A step moves a removal from decided to held to notified, and loses none. */
  lemma NoticesThread(c: Config, m: Machine, t: Tid, l: Label, r: Removal)
    requires Enabled(c, m, t, l)
    ensures Unaccounted(Apply(c, m, t, l), t, r) == Unaccounted(m, t, r)
  {
    hide Enabled, Apply, Unaccounted;
    if l.DoEvictOne? || l.DoSweepOne? || l.DoRecheck? {
      NoticesTaken(c, m, t, l, r);
    } else if HandlesRemovals(l) {
      NoticesReported(c, m, t, l, r);
    } else {
      NoticesQuiet(c, m, t, l, r);
    }
  }

  lemma NoticesStep(c: Config, m: Machine, t: Tid, l: Label)
    requires Notices(m) && Enabled(c, m, t, l)
    ensures Notices(Apply(c, m, t, l))
  {
    hide Enabled, Apply, Weight, Copies;
    var n := Apply(c, m, t, l);
    forall r: Removal
      ensures Copies(n.removals, r) == Copies(n.notified, r) + Sum(n.threads, Holding(r))
    {
      SumStep(c, m, t, l, Holding(r));
      NoticesThread(c, m, t, l, r);
    }
  }

  // ---- counters ----

  lemma StoreSize(s: State, k: Key, v: Value, expiresAt: nat, stamp: nat)
    ensures |Update(s, k, v, expiresAt, stamp).entries| == |s.entries| + if k in s.entries then 0 else 1
    ensures k in s.entries ==> |Drop(s, k).entries| == |s.entries| - 1 && |Touch(s, k).entries| == |s.entries|
  {
    var u := Update(s, k, v, expiresAt, stamp).entries;
    assert u.Keys == s.entries.Keys + {k};
    assert |u| == |u.Keys| && |s.entries| == |s.entries.Keys|;
    if k in s.entries {
      var d, e := Drop(s, k).entries, Touch(s, k).entries;
      assert d.Keys == s.entries.Keys - {k} && e.Keys == s.entries.Keys;
      assert |d| == |d.Keys| && |e| == |e.Keys|;
    }
  }

  /** The keys ever created are those present and those gone, each for one reason. */
  lemma CreatedThread(c: Config, m: Machine, t: Tid, l: Label)
    requires Enabled(c, m, t, l)
    ensures var n := Apply(c, m, t, l);
            n.created - |n.st.entries| - n.deleted - |n.removals|
            == m.created - |m.st.entries| - m.deleted - |m.removals|
  {
    hide TotalRam, TtlKeys, Update, Drop, Touch, Counted, CountLookup, CanPick, ListsExpired;
    var pc := if t in m.threads then m.threads[t] else SweepStart(0);
    match l
    case DoStore => StoreSize(m.st, pc.key, pc.value, pc.expiresAt, pc.stamp);
    case DoCheck => StoreSize(m.st, pc.key, [], 0, 0);
    case DoRecheck => StoreSize(m.st, pc.key, [], 0, 0);
    case DoDelete => StoreSize(m.st, pc.key, [], 0, 0);
    case DoEvictOne(r) => StoreSize(m.st, r.key, [], 0, 0);
    case DoSweepOne => StoreSize(m.st, pc.dead[0], [], 0, 0);
    case DoCountUp => CountedOnlyCounts(m.st, pc.removed);
    case DoCountAnswer => LookupOnlyCounts(m.st, pc.found);
    case _ =>
  }

  lemma LookupOnlyCounts(s: State, found: Found)
    ensures CountLookup(s, found).entries == s.entries
  {
  }

  /**
   Removals of a cause made but neither counted nor on their way to be, as a
   number below zero; a lost race is counted as an expiry.
   */
  function Adrift(m: Machine, t: Tid, cause: Cause): int {
    (if cause == Evicted then m.st.evictions else m.st.expired - m.lostRaces)
    + WeightAt(m.threads, t, Uncounted(cause)) - Count(m.removals, cause)
  }

  lemma AdriftDropped(c: Config, m: Machine, t: Tid, l: Label, cause: Cause)
    requires Enabled(c, m, t, l) && (l.DoEvictOne? || l.DoSweepOne?)
    ensures Adrift(Apply(c, m, t, l), t, cause) == Adrift(m, t, cause)
  {
    hide Drop, Touch, Update, Count, CanPick, ListsExpired, LookupFast, LookupSlow;
    DropAndCount(m, m.threads[t], l);
  }

  lemma AdriftRechecked(c: Config, m: Machine, t: Tid, l: Label, cause: Cause)
    requires Enabled(c, m, t, l) && l.DoRecheck?
    ensures Adrift(Apply(c, m, t, l), t, cause) == Adrift(m, t, cause)
  {
    hide Drop, Touch, Update, Count, CanPick, ListsExpired;
    EvictsNothing(m.st, 0, 1, 0);
    DropAndCount(m, m.threads[t], l);
  }

  lemma AdriftCounted(c: Config, m: Machine, t: Tid, l: Label, cause: Cause)
    requires Enabled(c, m, t, l) && (l.DoNotify? || l.DoCountUp? || l.DoCountAnswer?)
    ensures Adrift(Apply(c, m, t, l), t, cause) == Adrift(m, t, cause)
  {
    hide Drop, Touch, Update, Count, CanPick, ListsExpired;
  }

  lemma AdriftChanged(c: Config, m: Machine, t: Tid, l: Label, cause: Cause)
    requires Enabled(c, m, t, l) && (l.DoStore? || l.DoCheck? || l.DoDelete?)
    ensures Adrift(Apply(c, m, t, l), t, cause) == Adrift(m, t, cause)
  {
    hide Drop, Touch, Update, Count;
    EvictsNothing(m.st, 0, 1, 0);
    DropAndCount(m, m.threads[t], l);
  }

  lemma AdriftQuiet(c: Config, m: Machine, t: Tid, l: Label, cause: Cause)
    requires Enabled(c, m, t, l) && !HandlesRemovals(l) && !l.DoStore? && !l.DoCheck? && !l.DoDelete?
    ensures Adrift(Apply(c, m, t, l), t, cause) == Adrift(m, t, cause)
  {
    hide Count, ListsExpired, CanPick, Drop, Touch, Update, Counted, CountLookup, LookupFast, LookupSlow;
    EvictsNothing(m.st, 0, 1, 0);
  }

  lemma AdriftThread(c: Config, m: Machine, t: Tid, l: Label, cause: Cause)
    requires Enabled(c, m, t, l)
    ensures Adrift(Apply(c, m, t, l), t, cause) == Adrift(m, t, cause)
  {
    hide Enabled, Apply, Adrift;
    if l.DoEvictOne? || l.DoSweepOne? {
      AdriftDropped(c, m, t, l, cause);
    } else if l.DoRecheck? {
      AdriftRechecked(c, m, t, l, cause);
    } else if HandlesRemovals(l) {
      AdriftCounted(c, m, t, l, cause);
    } else if l.DoStore? || l.DoCheck? || l.DoDelete? {
      AdriftChanged(c, m, t, l, cause);
    } else {
      AdriftQuiet(c, m, t, l, cause);
    }
  }

  /** The steps of a lookup after its beginning. */
  predicate OfLookup(l: Label) {
    l.DoCheck? || l.DoRecheck? || l.DoCountAnswer?
  }

  /** Lookups begun that are neither open nor a hit nor a miss. */
  function Unanswered(m: Machine, t: Tid): int {
    m.st.hits + m.st.misses + WeightAt(m.threads, t, OpenLookups) - m.lookups
  }

  lemma LookupsMove(c: Config, m: Machine, t: Tid, l: Label)
    requires Enabled(c, m, t, l) && OfLookup(l)
    ensures Unanswered(Apply(c, m, t, l), t) == Unanswered(m, t)
  {
    hide Drop, Touch, Update, Count, CanPick, ListsExpired;
    DropAndCount(m, m.threads[t], l);
  }

  lemma LookupsRest(c: Config, m: Machine, t: Tid, l: Label)
    requires Enabled(c, m, t, l) && !OfLookup(l)
    ensures Unanswered(Apply(c, m, t, l), t) == Unanswered(m, t)
  {
    hide Drop, Touch, Update, Count, CanPick, ListsExpired, CountLookup;
    DropAndCount(m, if t in m.threads then m.threads[t] else SweepStart(0), l);
  }

  /** Every lookup begun is open, or a hit, or a miss. */
  lemma LookupsThread(c: Config, m: Machine, t: Tid, l: Label)
    requires Enabled(c, m, t, l)
    ensures Unanswered(Apply(c, m, t, l), t) == Unanswered(m, t)
  {
    hide Enabled, Apply, Unanswered;
    if OfLookup(l) {
      LookupsMove(c, m, t, l);
    } else {
      LookupsRest(c, m, t, l);
    }
  }

  /** What the proofs above need of the entry a step takes out. */
  lemma DropAndCount(m: Machine, pc: Pc, l: Label)
    ensures l.DoStore? && pc.InsertStamped? ==>
              SameCounters(m.st, Update(m.st, pc.key, pc.value, pc.expiresAt, pc.stamp))
    ensures l.DoCheck? && pc.LookupStart? && pc.key in m.st.entries ==> SameCounters(m.st, Touch(m.st, pc.key))
    ensures l.DoRecheck? && pc.LookupRetry? && pc.key in m.st.entries ==>
              && SameCounters(m.st, Touch(m.st, pc.key)) && SameCounters(m.st, Drop(m.st, pc.key))
              && CountsOneMore(m.removals, Removal(pc.key, Expired))
    ensures l.DoDelete? && pc.DeleteStart? && pc.key in m.st.entries ==> SameCounters(m.st, Drop(m.st, pc.key))
    ensures l.DoEvictOne? && pc.Evicting? && l.r.key in m.st.entries ==>
              && SameCounters(m.st, Drop(m.st, l.r.key))
              && CountsOneMore(m.removals, l.r) && CountsOneMore(pc.removed, l.r)
    ensures l.DoSweepOne? && pc.Sweeping? && pc.dead != [] && pc.dead[0] in m.st.entries ==>
              && SameCounters(m.st, Drop(m.st, pc.dead[0]))
              && CountsOneMore(m.removals, Removal(pc.dead[0], Expired))
              && CountsOneMore(pc.removed, Removal(pc.dead[0], Expired))
  {
    match l
    case DoRecheck => if pc.LookupRetry? { CountExtend(m.removals, Removal(pc.key, Expired)); }
    case DoEvictOne(r) => if pc.Evicting? { CountExtend(m.removals, r); CountExtend(pc.removed, r); }
    case DoSweepOne =>
      if pc.Sweeping? && pc.dead != [] {
        CountExtend(m.removals, Removal(pc.dead[0], Expired));
        CountExtend(pc.removed, Removal(pc.dead[0], Expired));
      }
    case _ =>
  }

  predicate SameCounters(s: State, t: State) {
    t.hits == s.hits && t.misses == s.misses && t.evictions == s.evictions && t.expired == s.expired
  }

  predicate CountsOneMore(removed: seq<Removal>, r: Removal) {
    && Count(removed + [r], Evicted) == Count(removed, Evicted) + (if r.cause == Evicted then 1 else 0)
    && Count(removed + [r], Expired) == Count(removed, Expired) + (if r.cause == Expired then 1 else 0)
  }

  lemma CountersStep(c: Config, m: Machine, t: Tid, l: Label)
    requires Counters(m) && Enabled(c, m, t, l)
    ensures Counters(Apply(c, m, t, l))
  {
    hide Enabled, Apply, Weight, Count;
    var n := Apply(c, m, t, l);
    CreatedThread(c, m, t, l);
    AdriftThread(c, m, t, l, Evicted);
    AdriftThread(c, m, t, l, Expired);
    LookupsThread(c, m, t, l);
    CountBoth(m.removals);
    CountBoth(n.removals);
    SumStep(c, m, t, l, Uncounted(Evicted));
    SumStep(c, m, t, l, Uncounted(Expired));
    SumStep(c, m, t, l, OpenLookups);
  }

  // ---- the flat map ----

  lemma CellsOf(s: State, k: Key, v: Value, expiresAt: nat, stamp: nat)
    ensures Cells(Update(s, k, v, expiresAt, stamp).entries) == Cells(s.entries)[k := Cell(v, expiresAt)]
    ensures k in s.entries ==> Cells(Drop(s, k).entries) == Cells(s.entries) - {k}
    ensures k in s.entries ==> Cells(Touch(s, k).entries) == Cells(s.entries)
    ensures k !in s.entries ==> Cells(s.entries) - {k} == Cells(s.entries)
  {
  }

  lemma PickCause(m: Table, sample: nat, now: nat, r: Removal)
    requires CanPick(m, sample, now, r)
    ensures r.key in m && (r.cause == Expired <==> m[r.key].IsExpired(now))
  {
  }

  lemma LinearStep(c: Config, m: Machine, t: Tid, l: Label)
    requires Sound(c, m) && Linear(m) && Enabled(c, m, t, l)
    ensures Linear(Apply(c, m, t, l))
  {
    hide TotalRam, TtlKeys, Update, Drop, Touch, Counted, CountLookup, CanPick, ListsExpired, Legal, Replay;
    var pc := if t in m.threads then m.threads[t] else SweepStart(0);
    match l
    case DoStore =>
      CellsOf(m.st, pc.key, pc.value, pc.expiresAt, pc.stamp);
      Extend(m.trace, Put(pc.key, pc.value, pc.expiresAt));
    case DoCheck => CheckLinear(m, t, pc);
    case DoRecheck => RecheckLinear(m, t, pc);
    case DoDelete =>
      CellsOf(m.st, pc.key, [], 0, 0);
      Extend(m.trace, Del(pc.key, pc.key in m.st.entries));
    case DoEvictOne(r) =>
      PickCause(m.st.entries, c.sample, pc.now, r);
      TakeOutLinear(m, r, pc.now);
    case DoSweepOne =>
      assert Local(c, m, t);
      TakeOutLinear(m, Removal(pc.dead[0], Expired), pc.now);
    case DoCountUp => CountedOnlyCounts(m.st, pc.removed);
    case DoCountAnswer => LookupOnlyCounts(m.st, pc.found);
    case _ =>
  }

  lemma TakeOutLinear(m: Machine, r: Removal, now: nat)
    requires Linear(m) && r.key in m.st.entries
    requires r.cause == Expired <==> m.st.entries[r.key].IsExpired(now)
    ensures Linear(TakeOut(m, r, now))
  {
    hide Legal, Replay;
    CellsOf(m.st, r.key, [], 0, 0);
    Extend(m.trace, Lost(r.key, r.cause, now));
  }

  lemma CheckLinear(m: Machine, t: Tid, pc: Pc)
    requires Linear(m) && pc.LookupStart?
    ensures Linear(Check(m, t, pc))
  {
    hide Legal, Replay, Touch;
    CellsOf(m.st, pc.key, [], 0, 0);
    if pc.key !in m.st.entries {
      Extend(m.trace, Miss(pc.key, pc.now));
    } else if !m.st.entries[pc.key].IsExpired(pc.now) {
      Extend(m.trace, Hit(pc.key, m.st.entries[pc.key].value, pc.now));
    }
  }

  lemma RecheckLinear(m: Machine, t: Tid, pc: Pc)
    requires Linear(m) && pc.LookupRetry?
    ensures Linear(Recheck(m, t, pc))
  {
    hide Legal, Replay, Touch, Drop;
    CellsOf(m.st, pc.key, [], 0, 0);
    if pc.key in m.st.entries && !m.st.entries[pc.key].IsExpired(pc.now) {
      Extend(m.trace, Hit(pc.key, m.st.entries[pc.key].value, pc.now));
    } else if pc.key in m.st.entries {
      var n := TakeOut(m, Removal(pc.key, Expired), pc.now);
      TakeOutLinear(m, Removal(pc.key, Expired), pc.now);
      Extend(n.trace, Miss(pc.key, pc.now));
    } else {
      Extend(m.trace, Miss(pc.key, pc.now));
    }
  }

  // ---- what of the history is reported ----

  /** The removals a history tells of: its losses, and neither its puts nor its deletes. */
  function Losses(trace: seq<Event>): seq<Removal> {
    if trace == [] then []
    else Losses(Init(trace)) + if Last(trace).Lost? then [Removal(Last(trace).key, Last(trace).cause)] else []
  }

  lemma LossesExtend(trace: seq<Event>, e: Event)
    ensures Losses(trace + [e]) == Losses(trace) + if e.Lost? then [Removal(e.key, e.cause)] else []
  {
    assert Init(trace + [e]) == trace && Last(trace + [e]) == e;
  }

  /** The removals made are those the history tells of, in that order. */
  predicate Reported(m: Machine) {
    m.removals == Losses(m.trace)
  }

  lemma ReportedStep(c: Config, m: Machine, t: Tid, l: Label)
    requires Reported(m) && Enabled(c, m, t, l)
    ensures Reported(Apply(c, m, t, l))
  {
    hide Update, Drop, Touch, Counted, CountLookup, CanPick, ListsExpired, Losses;
    var pc := if t in m.threads then m.threads[t] else SweepStart(0);
    match l
    case DoStore => LossesExtend(m.trace, Put(pc.key, pc.value, pc.expiresAt));
    case DoCheck => if pc.LookupStart? { LossesExtend(m.trace, CheckVerdict(m, pc)); }
    case DoRecheck =>
      LossesExtend(m.trace, Lost(pc.key, Expired, pc.now));
      LossesExtend(m.trace, Verdict(pc.key, pc.now, LookupSlow(m.st, pc.key, pc.now).1));
      LossesExtend(m.trace + [Lost(pc.key, Expired, pc.now)], Miss(pc.key, pc.now));
    case DoDelete => LossesExtend(m.trace, Del(pc.key, pc.key in m.st.entries));
    case DoEvictOne(r) => LossesExtend(m.trace, Lost(r.key, r.cause, pc.now));
    case DoSweepOne => LossesExtend(m.trace, Lost(pc.dead[0], Expired, pc.now));
    case _ =>
  }

  /** What a lookup's first half settles, if it settles anything. */
  function CheckVerdict(m: Machine, pc: Pc): Event
    requires pc.LookupStart?
  {
    var early := LookupFast(m.st, pc.key, pc.now).1;
    if early.Some? then Verdict(pc.key, pc.now, early.value) else Miss(pc.key, pc.now)
  }

  // ---- hits and misses ----

  /** How many gets of a history were answered with a value. */
  function HitsOf(trace: seq<Event>): nat {
    if trace == [] then 0 else HitsOf(Init(trace)) + if Last(trace).Hit? then 1 else 0
  }

  /** How many were answered with nothing. */
  function MissesOf(trace: seq<Event>): nat {
    if trace == [] then 0 else MissesOf(Init(trace)) + if Last(trace).Miss? then 1 else 0
  }

  lemma ScoreExtend(trace: seq<Event>, e: Event)
    ensures HitsOf(trace + [e]) == HitsOf(trace) + if e.Hit? then 1 else 0
    ensures MissesOf(trace + [e]) == MissesOf(trace) + if e.Miss? then 1 else 0
  {
    assert Init(trace + [e]) == trace && Last(trace + [e]) == e;
  }

  /** The two counters, with what threads have yet to add to them, are the hits and the misses of the history. */
  ghost predicate Scored(m: Machine) {
    && m.st.hits + Sum(m.threads, Unscored(true)) == HitsOf(m.trace)
    && m.st.misses + Sum(m.threads, Unscored(false)) == MissesOf(m.trace)
  }

  /** How far one thread's part leaves the counters from the history. */
  function Gap(m: Machine, t: Tid): (int, int) {
    (m.st.hits + WeightAt(m.threads, t, Unscored(true)) - HitsOf(m.trace),
     m.st.misses + WeightAt(m.threads, t, Unscored(false)) - MissesOf(m.trace))
  }

  lemma GapLookup(c: Config, m: Machine, t: Tid, l: Label)
    requires Enabled(c, m, t, l) && OfLookup(l)
    ensures Gap(Apply(c, m, t, l), t) == Gap(m, t)
  {
    hide Drop, Touch, Update, Count, CanPick, ListsExpired, HitsOf, MissesOf;
    var pc := m.threads[t];
    DropAndCount(m, pc, l);
    match l
    case DoCheck => ScoreExtend(m.trace, CheckVerdict(m, pc));
    case DoRecheck =>
      var lost := Lost(pc.key, Expired, pc.now);
      ScoreExtend(m.trace, lost);
      ScoreExtend(m.trace, Verdict(pc.key, pc.now, LookupSlow(m.st, pc.key, pc.now).1));
      ScoreExtend(m.trace + [lost], Miss(pc.key, pc.now));
    case DoCountAnswer =>
  }

  lemma GapRest(c: Config, m: Machine, t: Tid, l: Label)
    requires Enabled(c, m, t, l) && !OfLookup(l)
    ensures Gap(Apply(c, m, t, l), t) == Gap(m, t)
  {
    hide Drop, Touch, Update, Count, CanPick, ListsExpired, LookupFast, LookupSlow, CountLookup, HitsOf, MissesOf;
    var pc := if t in m.threads then m.threads[t] else SweepStart(0);
    DropAndCount(m, pc, l);
    match l
    case DoStore => ScoreExtend(m.trace, Put(pc.key, pc.value, pc.expiresAt));
    case DoDelete => ScoreExtend(m.trace, Del(pc.key, pc.key in m.st.entries));
    case DoEvictOne(r) => ScoreExtend(m.trace, Lost(r.key, r.cause, pc.now));
    case DoSweepOne => ScoreExtend(m.trace, Lost(pc.dead[0], Expired, pc.now));
    case _ =>
  }

  lemma ScoredStep(c: Config, m: Machine, t: Tid, l: Label)
    requires Scored(m) && Enabled(c, m, t, l)
    ensures Scored(Apply(c, m, t, l))
  {
    hide Enabled, Apply, Weight, HitsOf, MissesOf;
    if OfLookup(l) {
      GapLookup(c, m, t, l);
    } else {
      GapRest(c, m, t, l);
    }
    SumStep(c, m, t, l, Unscored(true));
    SumStep(c, m, t, l, Unscored(false));
  }

  // ---- answers ----

  /** What a lookup is about to return, and what an insert in flight added, is what the history says of it. */
  predicate Settled(m: Machine, pc: Pc) {
    && (pc.InFlight() ==> exists x :: 0 <= x < |m.trace| && SizeOfPut(m.trace[x], pc.added))
    && (pc.LookupStart? || pc.LookupRetry? ==> pc.began <= |m.trace|)
    && (pc.LookupDone? ==> pc.began <= pc.at < |m.trace| && m.trace[pc.at] == Verdict(pc.key, pc.now, pc.found))
  }

  /** The event is a put of an entry charged `n` bytes. */
  predicate SizeOfPut(e: Event, n: nat) {
    e.Put? && n == |e.key| + |e.value| + 96
  }

  ghost predicate Honest(m: Machine) {
    forall t :: t in m.threads ==> Settled(m, m.threads[t])
  }

  lemma TraceGrows(c: Config, m: Machine, t: Tid, l: Label)
    requires Enabled(c, m, t, l)
    ensures m.trace <= Apply(c, m, t, l).trace
  {
    hide Update, Drop, Touch, Counted, CountLookup, CanPick, ListsExpired;
  }

  lemma SettledStays(m: Machine, n: Machine, pc: Pc)
    requires m.trace <= n.trace && Settled(m, pc)
    ensures Settled(n, pc)
  {
    hide Verdict, SizeOfPut;
    if pc.InFlight() {
      var x :| 0 <= x < |m.trace| && SizeOfPut(m.trace[x], pc.added);
      assert n.trace[x] == m.trace[x];
    }
  }

  lemma InsertSettled(c: Config, m: Machine, t: Tid, l: Label)
    requires Honest(m) && Enabled(c, m, t, l)
    ensures var n := Apply(c, m, t, l);
            t in n.threads && n.threads[t].InFlight() ==>
              exists x :: 0 <= x < |n.trace| && SizeOfPut(n.trace[x], n.threads[t].added)
  {
    hide Update, Drop, Touch, Counted, CountLookup, CanPick, ListsExpired, Verdict, LookupFast, LookupSlow;
    var n := Apply(c, m, t, l);
    if l.DoStore? {
      assert SizeOfPut(n.trace[|m.trace|], n.threads[t].added);
    } else if t in m.threads && m.threads[t].InFlight() {
      assert Settled(m, m.threads[t]);
      TraceGrows(c, m, t, l);
      SettledStays(m, n, m.threads[t]);
    }
  }

  lemma LookupSettled(c: Config, m: Machine, t: Tid, l: Label)
    requires Honest(m) && Enabled(c, m, t, l)
    ensures var n := Apply(c, m, t, l);
            t in n.threads && !n.threads[t].InFlight() ==> Settled(n, n.threads[t])
  {
    hide Update, Drop, Touch, Counted, CountLookup, CanPick, ListsExpired, Verdict, SizeOfPut;
    if t in m.threads {
      assert Settled(m, m.threads[t]);
    }
  }

  lemma HonestStep(c: Config, m: Machine, t: Tid, l: Label)
    requires Honest(m) && Enabled(c, m, t, l)
    ensures Honest(Apply(c, m, t, l))
  {
    hide Enabled, Apply;
    var n := Apply(c, m, t, l);
    TraceGrows(c, m, t, l);
    OneThreadMoves(c, m, t, l);
    InsertSettled(c, m, t, l);
    LookupSettled(c, m, t, l);
    forall u | u in n.threads && u != t
      ensures Settled(n, n.threads[u])
    {
      SettledStays(m, n, m.threads[u]);
    }
  }
}
