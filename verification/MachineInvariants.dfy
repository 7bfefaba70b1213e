/** Invariants of the interleaved shard, each kept by every step of every thread. */
module MachineInvariants {
  import opened Bytes
  import opened Entries
  import opened ShardSpec
  import opened Eviction
  import opened Interleaving

  // ---- sums over threads ----

  /** What is added up over the threads. */
  datatype Measure =
    | AddedAfter(index: int)    // bytes stored by in-flight inserts that published after `index`
    | Holding(r: Removal)       // times a removal still waits to be notified
    | Uncounted(cause: Cause)   // removals and lost races not yet on the shard's counters
    | OpenLookups               // lookups not yet counted as a hit or a miss
    | Unscored(hit: bool)       // answers settled, with a value or without, not yet counted

  function Pending(pc: Pc): seq<Removal> {
    match pc
    case Evicting(_, _, _, _, removed) => removed
    case Sweeping(_, _, removed) => removed
    case Counting(removed) => removed
    case Notifying(removed) => removed
    case LookupDone(_, _, _, found, _) => found.removed
    case _ => []
  }

  /** How often a list reports the same removal. */
  function Copies(removed: seq<Removal>, r: Removal): nat {
    multiset(removed)[r]
  }

  function Weight(q: Measure, pc: Pc): nat {
    match q
    case AddedAfter(i) => if pc.InFlight() && pc.pub > i then pc.added else 0
    case Holding(r) => Copies(Pending(pc), r)
    case Uncounted(cause) =>
      if pc.LookupDone? then (if pc.found.late && pc.found.answer.None? && cause == Expired then 1 else 0)
      else if pc.Notifying? then 0
      else Count(Pending(pc), cause)
    case OpenLookups => if pc.LookupStart? || pc.LookupRetry? || pc.LookupDone? then 1 else 0
    case Unscored(hit) => if pc.LookupDone? && pc.found.answer.Some? == hit then 1 else 0
  }

  ghost function Sum(ts: map<Tid, Pc>, q: Measure): nat {
    if ts == map[] then 0 else
      var t :| t in ts;
      Weight(q, ts[t]) + Sum(ts - {t}, q)
  }

  lemma {:induction false} SumWithout(ts: map<Tid, Pc>, t: Tid, q: Measure)
    requires t in ts
    ensures Sum(ts, q) == Weight(q, ts[t]) + Sum(ts - {t}, q)
    decreases |ts|
  {
    var p :| p in ts && Sum(ts, q) == Weight(q, ts[p]) + Sum(ts - {p}, q);
    if p == t {
    } else {
      SumWithout(ts - {p}, t, q);
      SumWithout(ts - {t}, p, q);
      assert ts - {p} - {t} == ts - {t} - {p};
    }
  }

  function WeightAt(ts: map<Tid, Pc>, t: Tid, q: Measure): nat {
    if t in ts then Weight(q, ts[t]) else 0
  }

  /** Moving one thread changes a sum by that thread's own change. */
  lemma SumGo(ts: map<Tid, Pc>, t: Tid, pc: Pc, q: Measure)
    ensures Sum(ts[t := pc], q) == Sum(ts, q) - WeightAt(ts, t, q) + Weight(q, pc)
    ensures Sum(ts - {t}, q) == Sum(ts, q) - WeightAt(ts, t, q)
  {
    SumWithout(ts[t := pc], t, q);
    assert ts[t := pc] - {t} == ts - {t};
    if t in ts {
      SumWithout(ts, t, q);
    } else {
      assert ts - {t} == ts;
    }
  }

  /** Counting from a later index leaves fewer inserts to count. */
  lemma {:induction false} SumLater(ts: map<Tid, Pc>, i: int, j: int)
    requires i <= j
    ensures Sum(ts, AddedAfter(j)) <= Sum(ts, AddedAfter(i))
    decreases |ts|
  {
    if ts == map[] {
    } else {
      var t :| t in ts;
      SumWithout(ts, t, AddedAfter(i));
      SumWithout(ts, t, AddedAfter(j));
      SumLater(ts - {t}, i, j);
    }
  }

  /** A step moves one thread. */
  lemma OneThreadMoves(c: Config, m: Machine, t: Tid, l: Label)
    requires Enabled(c, m, t, l)
    ensures var n := Apply(c, m, t, l);
            if l.DoFinish? then n.threads == m.threads - {t}
            else t in n.threads && n.threads == m.threads[t := n.threads[t]]
  {
    hide Drop, Update, Touch, Counted, CountLookup, CanPick, ListsExpired;
  }

  lemma SumStep(c: Config, m: Machine, t: Tid, l: Label, q: Measure)
    requires Enabled(c, m, t, l)
    ensures var n := Apply(c, m, t, l);
            Sum(n.threads, q) == Sum(m.threads, q) - WeightAt(m.threads, t, q) + WeightAt(n.threads, t, q)
  {
    hide Weight, Enabled, Apply, Sum;
    var n := Apply(c, m, t, l);
    OneThreadMoves(c, m, t, l);
    if l.DoFinish? {
      SumGo(m.threads, t, SweepStart(0), q);
    } else {
      SumGo(m.threads, t, n.threads[t], q);
    }
  }

  // ---- the shard and its lock ----

  /** What each thread's program counter says about the shard. */
  ghost predicate Local(c: Config, m: Machine, t: Tid)
    requires t in m.threads
  {
    var pc := m.threads[t];
    && (pc.Holder() <==> m.lock == Some(t))
    && (pc.InFlight() ==> pc.pub < |m.published|)
    && (pc.SweepStart? ==> pc.since < |m.ttlPublished|)
    && (pc.Evicting? ==> pc.rounds == |m.st.entries| + c.sample)
    && (pc.Sweeping? ==>
          && (forall k :: k in pc.dead ==> k in m.st.entries && m.st.entries[k].IsExpired(pc.now))
          && (forall i, j :: 0 <= i < j < |pc.dead| ==> pc.dead[i] != pc.dead[j]))
  }

  /**
   The counters are exact and the mirrors follow them, at every step: in
   particular no saturating update saturates and no subtraction underflows.
   */
  ghost predicate Sound(c: Config, m: Machine) {
    && Exact(m.st)
    && m.published != [] && Last(m.published) == m.st.bytes
    && m.ttlPublished != [] && Last(m.ttlPublished) == m.st.ttlKeys
    && (m.lock.Some? ==> m.lock.value in m.threads)
    && forall t :: t in m.threads ==> Local(c, m, t)
  }

  lemma DropBytes(s: State, k: Key)
    requires Exact(s) && k in s.entries
    ensures Exact(Drop(s, k)) && Drop(s, k).bytes < s.bytes
    ensures |Drop(s, k).entries| == |s.entries| - 1
  {
    DropKeeps(s, k);
    assert s.entries.Keys == Drop(s, k).entries.Keys + {k};
    assert |s.entries| == |s.entries.Keys| && |Drop(s, k).entries| == |Drop(s, k).entries.Keys|;
  }

  /** The shard after a step: exact, and its counters published if they moved. */
  lemma StepExact(c: Config, m: Machine, t: Tid, l: Label)
    requires Sound(c, m) && Enabled(c, m, t, l)
    ensures var n := Apply(c, m, t, l);
            && Exact(n.st)
            && n.published != [] && Last(n.published) == n.st.bytes
            && n.ttlPublished != [] && Last(n.ttlPublished) == n.st.ttlKeys
            && |n.published| >= |m.published| && |n.ttlPublished| >= |m.ttlPublished|
  {
    hide TotalRam, TtlKeys, Update, Drop, Touch, Counted, CanPick, ListsExpired;
    var pc := if t in m.threads then m.threads[t] else SweepStart(0);
    match l
    case DoStore =>
      UpdateKeeps(m.st, pc.key, pc.value, pc.expiresAt, pc.stamp);
    case DoCheck =>
      if pc.key in m.st.entries {
        TouchKeeps(m.st, pc.key);
        TouchBytes(m.st, pc.key);
      }
    case DoRecheck =>
      if pc.key in m.st.entries {
        TouchKeeps(m.st, pc.key);
        TouchBytes(m.st, pc.key);
        DropKeeps(m.st, pc.key);
      }
    case DoDelete =>
      if pc.key in m.st.entries {
        DropKeeps(m.st, pc.key);
      }
    case DoEvictOne(r) => DropKeeps(m.st, r.key);
    case DoSweepOne => DropKeeps(m.st, pc.dead[0]);
    case DoCountUp => CountedOnlyCounts(m.st, pc.removed);
    case _ =>
  }

  lemma TouchBytes(s: State, k: Key)
    requires k in s.entries
    ensures Touch(s, k).bytes == s.bytes && Touch(s, k).ttlKeys == s.ttlKeys
  {
  }

  lemma CountedOnlyCounts(s: State, removed: seq<Removal>)
    ensures var t := Counted(s, removed);
            t.entries == s.entries && t.bytes == s.bytes && t.ttlKeys == s.ttlKeys && t.clock == s.clock
  {
  }

  /** While one thread holds the lock no other changes which entries there are. */
  lemma OthersKeepKeys(c: Config, m: Machine, t: Tid, l: Label, u: Tid)
    requires Sound(c, m) && Enabled(c, m, t, l) && t != u && m.lock == Some(u)
    ensures Apply(c, m, t, l).st.entries == m.st.entries
  {
    hide TotalRam, TtlKeys, Update, Drop, Touch, CanPick, ListsExpired;
    if t in m.threads {
      assert Local(c, m, t);
    }
  }

  /** The thread that moved. */
  lemma MoverLocal(c: Config, m: Machine, t: Tid, l: Label)
    requires Sound(c, m) && Enabled(c, m, t, l)
    ensures var n := Apply(c, m, t, l); t in n.threads ==> Local(c, n, t)
  {
    hide Sound, Enabled, Apply, Local;
    if l.DoEvictOne? || l.DoSweepOne? {
      TakerLocal(c, m, t, l);
    } else {
      NonTakerLocal(c, m, t, l);
    }
  }

  lemma TakerLocal(c: Config, m: Machine, t: Tid, l: Label)
    requires Sound(c, m) && Enabled(c, m, t, l) && (l.DoEvictOne? || l.DoSweepOne?)
    ensures var n := Apply(c, m, t, l); t in n.threads ==> Local(c, n, t)
  {
    hide TotalRam, TtlKeys, Update, Drop, Touch, CanPick;
    assert Local(c, m, t);
    var pc := m.threads[t];
    if l.DoEvictOne? {
      DropBytes(m.st, l.r.key);
    } else {
      SweepLocal(m.st, pc.now, pc.dead);
    }
  }

  lemma NonTakerLocal(c: Config, m: Machine, t: Tid, l: Label)
    requires Sound(c, m) && Enabled(c, m, t, l) && !l.DoEvictOne? && !l.DoSweepOne?
    ensures var n := Apply(c, m, t, l); t in n.threads ==> Local(c, n, t)
  {
    hide Exact, Update, Drop, Touch, Counted, CountLookup;
    if t in m.threads {
      assert Local(c, m, t);
    }
  }

  /** The rest of a sweep's list is still there once its first entry is gone. */
  lemma SweepLocal(s: State, now: nat, dead: seq<Key>)
    requires dead != [] && forall k :: k in dead ==> k in s.entries && s.entries[k].IsExpired(now)
    requires forall i, j :: 0 <= i < j < |dead| ==> dead[i] != dead[j]
    ensures forall k :: k in dead[1..] ==> k in Drop(s, dead[0]).entries && Drop(s, dead[0]).entries[k].IsExpired(now)
    ensures forall i, j :: 0 <= i < j < |dead[1..]| ==> dead[1..][i] != dead[1..][j]
  {
  }

  /** A thread that did not move. */
  lemma OtherLocal(c: Config, m: Machine, t: Tid, l: Label, u: Tid)
    requires Sound(c, m) && Enabled(c, m, t, l) && t != u && u in m.threads
    ensures var n := Apply(c, m, t, l);
            u in n.threads && n.threads[u] == m.threads[u] && Local(c, n, u)
  {
    hide TotalRam, TtlKeys, Update, Drop, Touch, CanPick, ListsExpired;
    StepExact(c, m, t, l);
    assert Local(c, m, u);
    if t in m.threads {
      assert Local(c, m, t);
    }
    if m.threads[u].Holder() {
      OthersKeepKeys(c, m, t, l, u);
    }
  }

  lemma SoundStep(c: Config, m: Machine, t: Tid, l: Label)
    requires Sound(c, m) && Enabled(c, m, t, l)
    ensures Sound(c, Apply(c, m, t, l))
  {
    hide TotalRam, TtlKeys, Update, Drop, Touch, CanPick, ListsExpired, Local;
    var n := Apply(c, m, t, l);
    StepExact(c, m, t, l);
    forall u | u in n.threads
      ensures Local(c, n, u)
    {
      if u == t {
        MoverLocal(c, m, t, l);
      } else {
        OtherLocal(c, m, t, l, u);
      }
    }
    LockHolderStays(c, m, t, l);
  }

  lemma LockHolderStays(c: Config, m: Machine, t: Tid, l: Label)
    requires Sound(c, m) && Enabled(c, m, t, l)
    ensures var n := Apply(c, m, t, l); n.lock.Some? ==> n.lock.value in n.threads
  {
    hide TotalRam, TtlKeys, Update, Drop, Touch, CanPick, ListsExpired;
    if t in m.threads {
      assert Local(c, m, t);
    }
  }

  // ---- the memory bound ----

  /**
   Whenever some published value was within budget, only inserts that published
   after it can have taken the shard past the budget, and by no more than what
   they stored.
   */
  ghost predicate Bounded(c: Config, m: Machine) {
    && m.published != [] && m.published[0] <= c.capacity
    && forall i :: 0 <= i < |m.published| && m.published[i] <= c.capacity
                   ==> m.st.bytes <= c.capacity + Sum(m.threads, AddedAfter(i))
  }

  /** Where the most recent insert published; the start counts as a publish. */
  function LastPub(m: Machine): nat {
    if m.lastInsert.Some? then m.lastInsert.value.1 else 0
  }

  /** The thread whose locked update was the most recent, if it has not finished evicting. */
  ghost predicate LastInserterEvicting(m: Machine) {
    && m.lastInsert.Some?
    && var (t, pub) := m.lastInsert.value;
       t in m.threads && m.threads[t].InFlight() && m.threads[t].pub == pub
  }

  ghost predicate Owned(c: Config, m: Machine) {
    && LastPub(m) < |m.published|
    && (forall i :: LastPub(m) <= i < |m.published| ==> m.published[i] >= m.st.bytes)
    && (m.st.bytes > c.capacity ==> LastInserterEvicting(m))
  }

  /** The values published so far stay, and a step adds at most the new counts. */
  lemma PublishedGrows(c: Config, m: Machine, t: Tid, l: Label)
    requires Enabled(c, m, t, l)
    ensures var n := Apply(c, m, t, l);
            && (n.published == m.published || n.published == m.published + [n.st.bytes])
            && (n.ttlPublished == m.ttlPublished || n.ttlPublished == m.ttlPublished + [n.st.ttlKeys])
  {
    hide TotalRam, TtlKeys, Update, Drop, Touch, CanPick, ListsExpired;
  }

  /** A thread gives up the lock after evicting only when the shard is within budget. */
  lemma ReleaseWithinBudget(c: Config, m: Machine, t: Tid)
    requires c.sample >= 1 && Sound(c, m) && Enabled(c, m, t, DoRelease) && m.threads[t].Evicting?
    ensures m.st.bytes <= c.capacity
  {
    assert Local(c, m, t);
  }

  /** What a step adds to the shard it adds to the in-flight sum, save where an insert gives up. */
  lemma GrowthIsInFlight(c: Config, m: Machine, t: Tid, l: Label, i: nat)
    requires c.sample >= 1 && Sound(c, m) && Enabled(c, m, t, l) && i < |m.published|
    ensures var n := Apply(c, m, t, l);
            || n.st.bytes <= c.capacity
            || n.st.bytes - m.st.bytes <= WeightAt(n.threads, t, AddedAfter(i)) - WeightAt(m.threads, t, AddedAfter(i))
            || (l.DoReadHint? && m.published[l.at] <= c.capacity)
  {
    hide TotalRam, TtlKeys, Drop, Touch, CanPick, ListsExpired;
    var pc := if t in m.threads then m.threads[t] else SweepStart(0);
    match l
    case DoCheck =>
      if pc.key in m.st.entries {
        TouchBytes(m.st, pc.key);
      }
    case DoRecheck =>
      if pc.key in m.st.entries {
        TouchBytes(m.st, pc.key);
        DropKeeps(m.st, pc.key);
      }
    case DoDelete =>
      if pc.key in m.st.entries {
        DropKeeps(m.st, pc.key);
      }
    case DoEvictOne(r) => DropKeeps(m.st, r.key);
    case DoSweepOne => DropKeeps(m.st, pc.dead[0]);
    case DoRelease =>
      if pc.Evicting? {
        ReleaseWithinBudget(c, m, t);
      }
    case _ =>
  }

  lemma BoundedStep(c: Config, m: Machine, t: Tid, l: Label)
    requires c.sample >= 1 && Sound(c, m) && Bounded(c, m) && Enabled(c, m, t, l)
    ensures Bounded(c, Apply(c, m, t, l))
  {
    hide Sound, Enabled, Apply, Weight;
    var n := Apply(c, m, t, l);
    PublishedGrows(c, m, t, l);
    forall i | 0 <= i < |n.published| && n.published[i] <= c.capacity
      ensures n.st.bytes <= c.capacity + Sum(n.threads, AddedAfter(i))
    {
      if i < |m.published| {
        SumStep(c, m, t, l, AddedAfter(i));
        GrowthIsInFlight(c, m, t, l, i);
        if l.DoReadHint? {
          HintWithinBudget(c, m, t, l.at, i);
        }
      }
    }
  }

  /** A thread that trusts a mirror value within budget was not needed to evict. */
  lemma HintWithinBudget(c: Config, m: Machine, t: Tid, at: nat, i: nat)
    requires Bounded(c, m) && Enabled(c, m, t, DoReadHint(at))
    requires i < |m.published| && m.published[i] <= c.capacity
    ensures var n := Apply(c, m, t, DoReadHint(at));
            m.published[at] <= c.capacity ==> n.st.bytes <= c.capacity + Sum(n.threads, AddedAfter(i))
  {
    var n := Apply(c, m, t, DoReadHint(at));
    SumStep(c, m, t, DoReadHint(at), AddedAfter(i));
    SumStep(c, m, t, DoReadHint(at), AddedAfter(at));
    if m.published[at] <= c.capacity && m.threads[t].pub > i {
      SumLater(n.threads, i, at);
    }
  }

  /** Only a store raises the byte count, and it makes its thread the last inserter. */
  lemma OnlyStoresGrow(c: Config, m: Machine, t: Tid, l: Label)
    requires Sound(c, m) && Enabled(c, m, t, l)
    ensures var n := Apply(c, m, t, l);
            && (l.DoStore? ==> n.lastInsert == Some((t, |m.published|)) && |n.published| == |m.published| + 1
                               && t in n.threads && n.threads[t].HintRead? && n.threads[t].pub == |m.published|)
            && (!l.DoStore? ==> n.lastInsert == m.lastInsert && n.st.bytes <= m.st.bytes)
  {
    hide TotalRam, TtlKeys, Update, Drop, Touch, CanPick, ListsExpired;
    var pc := if t in m.threads then m.threads[t] else SweepStart(0);
    match l
    case DoCheck =>
      if pc.key in m.st.entries {
        TouchBytes(m.st, pc.key);
      }
    case DoRecheck =>
      if pc.key in m.st.entries {
        TouchBytes(m.st, pc.key);
        DropKeeps(m.st, pc.key);
      }
    case DoDelete =>
      if pc.key in m.st.entries {
        DropKeeps(m.st, pc.key);
      }
    case DoEvictOne(r) => DropKeeps(m.st, r.key);
    case DoSweepOne => DropKeeps(m.st, pc.dead[0]);
    case _ =>
  }

  /** A step of the last inserter itself leaves it evicting, or the shard within budget. */
  lemma LastInserterMoves(c: Config, m: Machine, t: Tid, l: Label)
    requires c.sample >= 1 && Sound(c, m) && Owned(c, m) && Enabled(c, m, t, l)
    requires t in m.threads && m.threads[t].InFlight() && m.threads[t].pub == LastPub(m)
    requires m.st.bytes > c.capacity
    ensures var n := Apply(c, m, t, l);
            n.st.bytes > c.capacity ==>
              t in n.threads && n.threads[t].InFlight() && n.threads[t].pub == m.threads[t].pub
  {
    hide TotalRam, TtlKeys, Update, Drop, Touch, CanPick, ListsExpired, Counted, CountLookup;
    if l.DoRelease? {
      ReleaseWithinBudget(c, m, t);
    }
  }

  /** While the shard is over budget its last inserter goes on evicting. */
  lemma LastInserterStays(c: Config, m: Machine, t: Tid, l: Label)
    requires c.sample >= 1 && Sound(c, m) && Owned(c, m) && Enabled(c, m, t, l) && !l.DoStore?
    requires Apply(c, m, t, l).st.bytes > c.capacity
    ensures LastInserterEvicting(Apply(c, m, t, l))
  {
    hide Sound, Enabled, Apply;
    OnlyStoresGrow(c, m, t, l);
    OneThreadMoves(c, m, t, l);
    if t == m.lastInsert.value.0 {
      LastInserterMoves(c, m, t, l);
    }
  }

  lemma OwnedStep(c: Config, m: Machine, t: Tid, l: Label)
    requires c.sample >= 1 && Sound(c, m) && Owned(c, m) && Enabled(c, m, t, l)
    ensures Owned(c, Apply(c, m, t, l))
  {
    hide Sound, Enabled, Apply;
    var n := Apply(c, m, t, l);
    PublishedGrows(c, m, t, l);
    OnlyStoresGrow(c, m, t, l);
    if !l.DoStore? && n.st.bytes > c.capacity {
      LastInserterStays(c, m, t, l);
    }
  }
}
