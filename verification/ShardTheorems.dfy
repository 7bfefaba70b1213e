/** What holds of one shard in every state of every interleaved run. */
module ShardTheorems {
  import opened Bytes
  import opened Entries
  import opened ShardSpec
  import opened History
  import opened Interleaving
  import opened MachineInvariants
  import opened MachineHistory

  ghost predicate AllInvariants(c: Config, m: Machine) {
    Sound(c, m) && Bounded(c, m) && Owned(c, m) && Notices(m) && Counters(m) && Linear(m) && Honest(m)
  }

  lemma StartMemory(c: Config)
    ensures Sound(c, START) && Bounded(c, START) && Owned(c, START)
  {
    assert Exact(INIT);
  }

  lemma NoThreads(q: Measure)
    ensures Sum(map[], q) == 0
  {
  }

  lemma StartHistory()
    ensures Notices(START) && Counters(START)
  {
    hide Copies, Weight, Sum, Count;
    var m := START;
    forall r: Removal
      ensures Copies(m.removals, r) == Copies(m.notified, r) + Sum(m.threads, Holding(r))
    {
      NoThreads(Holding(r));
    }
    NoThreads(Uncounted(Evicted));
    NoThreads(Uncounted(Expired));
    NoThreads(OpenLookups);
    assert Count([], Evicted) == Count([], Expired) == 0 by { CountBoth([]); }
  }

  lemma StartLinear()
    ensures Linear(START)
  {
    assert forall k :: k !in Cells(map[]);
  }

  lemma StartInvariants(c: Config)
    ensures AllInvariants(c, START)
  {
    hide Sound, Bounded, Owned, Notices, Counters, Linear;
    assert Honest(START);
    StartMemory(c);
    StartHistory();
    StartLinear();
  }

  lemma StepInvariants(c: Config, m: Machine, t: Tid, l: Label)
    requires c.sample >= 1 && AllInvariants(c, m) && Enabled(c, m, t, l)
    ensures AllInvariants(c, Apply(c, m, t, l))
  {
    hide Sound, Bounded, Owned, Notices, Counters, Linear, Honest, Enabled, Apply;
    SoundStep(c, m, t, l);
    BoundedStep(c, m, t, l);
    OwnedStep(c, m, t, l);
    NoticesStep(c, m, t, l);
    CountersStep(c, m, t, l);
    LinearStep(c, m, t, l);
    HonestStep(c, m, t, l);
  }

  lemma {:induction false} RunInvariants(c: Config, ms: seq<Machine>, n: nat)
    requires c.sample >= 1 && Behavior(c, ms) && n < |ms|
    ensures AllInvariants(c, ms[n])
  {
    hide AllInvariants, Enabled, Apply;
    if n == 0 {
      StartInvariants(c);
    } else {
      RunInvariants(c, ms, n - 1);
      assert Next(c, ms[n - 1], ms[n - 1 + 1]);
      var t, l :| Enabled(c, ms[n - 1], t, l) && ms[n] == Apply(c, ms[n - 1], t, l);
      StepInvariants(c, ms[n - 1], t, l);
    }
  }

  // ---- the hard memory bound ----

  /** Bytes stored by the inserts that have not finished evicting. */
  ghost function InFlightBytes(m: Machine): nat {
    Sum(m.threads, AddedAfter(-1))
  }

  predicate NoInsertInFlight(m: Machine) {
    forall t :: t in m.threads ==> !m.threads[t].InFlight()
  }

  lemma {:induction false} NothingInFlight(ts: map<Tid, Pc>)
    requires forall t :: t in ts ==> !ts[t].InFlight()
    ensures Sum(ts, AddedAfter(-1)) == 0
    decreases |ts|
  {
    if ts == map[] {
    } else {
      var t :| t in ts;
      SumWithout(ts, t, AddedAfter(-1));
      NothingInFlight(ts - {t});
    }
  }

  lemma BoundOfInvariants(c: Config, m: Machine)
    requires AllInvariants(c, m)
    ensures m.st.bytes == TotalRam(m.st.entries)
    ensures m.st.bytes <= c.capacity + InFlightBytes(m)
    ensures m.st.bytes > c.capacity ==> LastInserterEvicting(m)
    ensures NoInsertInFlight(m) ==> m.st.bytes <= c.capacity
  {
    SumLater(m.threads, -1, 0);
    assert m.published[0] <= c.capacity;
    if NoInsertInFlight(m) {
      NothingInFlight(m.threads);
    }
  }

  /**
   The bound is hard under every interleaving, however stale the mirror reads:
   the key bytes, value bytes and 96 an entry of the table never exceed the
   budget by more than what in-flight inserts stored, each the size of a put of
   the history; they exceed it at all only while the thread that stored last is
   still evicting; and with no insert in flight they do not, nor does any entry.
   */
  lemma MemoryBound(c: Config, ms: seq<Machine>, n: nat)
    requires c.sample >= 1 && Behavior(c, ms) && n < |ms|
    ensures var m, e := ms[n], ms[n].st.entries;
            var charged := KeyBytes(e) + ValueBytes(e) + 96 * |e|;
            && m.st.bytes == charged
            && charged <= c.capacity + InFlightBytes(m)
            && (charged > c.capacity ==> LastInserterEvicting(m))
            && (NoInsertInFlight(m) ==> charged <= c.capacity)
            && (NoInsertInFlight(m) ==> forall k :: k in e ==> |k| + |e[k].value| + 96 <= c.capacity)
    ensures forall t :: t in ms[n].threads && ms[n].threads[t].InFlight() ==>
              exists x :: 0 <= x < |ms[n].trace| && SizeOfPut(ms[n].trace[x], ms[n].threads[t].added)
  {
    hide Bounded, Owned, Notices, Counters, Linear, SizeOfPut, InFlightBytes, LastInserterEvicting;
    RunInvariants(c, ms, n);
    var m := ms[n];
    BoundOfInvariants(c, m);
    ChargeExactly(m.st.entries);
    forall k | k in m.st.entries
      ensures |k| + |m.st.entries[k].value| + 96 <= m.st.bytes
    {
      EntryWithinCharge(m.st.entries, k);
    }
    assert forall t :: t in m.threads ==> Settled(m, m.threads[t]);
  }

  /** The eviction loop's two other exits are never what ends it. */
  lemma EvictionEndsWithinBudget(c: Config, ms: seq<Machine>, n: nat, t: Tid)
    requires c.sample >= 1 && Behavior(c, ms) && n < |ms|
    requires t in ms[n].threads && ms[n].threads[t].Evicting?
    ensures ms[n].threads[t].rounds > 0
    ensures ms[n].st.entries == map[] ==> ms[n].st.bytes <= c.capacity
    ensures Enabled(c, ms[n], t, DoRelease) ==> ms[n].st.bytes <= c.capacity
  {
    RunInvariants(c, ms, n);
    assert Local(c, ms[n], t);
  }

  // ---- accounting ----

  /**
   Every key ever created is present, or was deleted, or was removed by eviction
   or by expiry; a removal is never notified more often than it was made; and a
   thread notifying holds no lock.
   */
  lemma RemovalAccounting(c: Config, ms: seq<Machine>, n: nat, r: Removal, t: Tid)
    requires c.sample >= 1 && Behavior(c, ms) && n < |ms|
    ensures var m := ms[n];
            && m.created == |m.st.entries| + m.deleted + Count(m.removals, Evicted) + Count(m.removals, Expired)
            && multiset(m.notified)[r] <= multiset(m.removals)[r]
            && (t in m.threads && m.threads[t].Notifying? ==> m.lock != Some(t))
            && m.st.ttlKeys == |TtlKeys(m.st.entries)|
  {
    RunInvariants(c, ms, n);
    var m := ms[n];
    assert Copies(m.removals, r) == Copies(m.notified, r) + Sum(m.threads, Holding(r));
    if t in m.threads {
      assert Local(c, m, t);
    }
  }

  lemma StartScored()
    ensures Scored(START)
  {
    NoThreads(Unscored(true));
    NoThreads(Unscored(false));
  }

  /** At every step the hit and miss counters, with what is yet to be counted, are those of the history. */
  lemma {:induction false} HitsAndMisses(c: Config, ms: seq<Machine>, n: nat)
    requires Behavior(c, ms) && n < |ms|
    ensures Scored(ms[n])
  {
    hide Scored, Enabled, Apply;
    if n == 0 {
      StartScored();
    } else {
      HitsAndMisses(c, ms, n - 1);
      assert Next(c, ms[n - 1], ms[n - 1 + 1]);
      var t, l :| Enabled(c, ms[n - 1], t, l) && ms[n] == Apply(c, ms[n - 1], t, l);
      ScoredStep(c, ms[n - 1], t, l);
    }
  }

  /**
   When no operation is in progress every removal has been notified exactly once
   with its cause, `hits` is the number of gets answered with a value and `misses`
   the number of the others, and the `expired` counter exceeds the Expired
   removals by exactly the lookups that lost the race to drop an entry they had
   seen expired.
   */
  lemma QuiescentAccounting(c: Config, ms: seq<Machine>, n: nat)
    requires c.sample >= 1 && Behavior(c, ms) && n < |ms| && ms[n].threads == map[]
    ensures var m := ms[n];
            && multiset(m.notified) == multiset(m.removals)
            && m.st.hits == HitsOf(m.trace) && m.st.misses == MissesOf(m.trace)
            && m.st.hits + m.st.misses == m.lookups
            && m.st.evictions == Count(m.removals, Evicted)
            && m.st.expired == Count(m.removals, Expired) + m.lostRaces
  {
    RunInvariants(c, ms, n);
    HitsAndMisses(c, ms, n);
    var m := ms[n];
    forall r: Removal
      ensures multiset(m.notified)[r] == multiset(m.removals)[r]
    {
      assert Copies(m.removals, r) == Copies(m.notified, r) + Sum(m.threads, Holding(r));
    }
  }

  // ---- answers ----

  /** The history of every run is one a flat lossy map allows, and the table is what that map holds. */
  lemma HistoryIsFlat(c: Config, ms: seq<Machine>, n: nat)
    requires c.sample >= 1 && Behavior(c, ms) && n < |ms|
    ensures Legal(ms[n].trace) && Replay(ms[n].trace) == Cells(ms[n].st.entries)
  {
    RunInvariants(c, ms, n);
  }

  /** `j` is the latest event before `at` that touched `k`, and it put `v` there. */
  predicate LatestPut(trace: seq<Event>, at: nat, k: Key, v: Value, expiresAt: nat, j: nat)
    requires at <= |trace|
  {
    && j < at && trace[j] == Put(k, v, expiresAt)
    && forall x :: j < x < at ==> !Touches(trace[x], k)
  }

  /** What the event that settled a get's answer says of that answer. */
  lemma AnswerIsExact(tr: seq<Event>, p: nat, k: Key, now: nat, found: Found)
    requires Legal(tr) && p < |tr| && tr[p] == Verdict(k, now, found)
    ensures found.answer.Some? ==>
              exists j, expiresAt :: LatestPut(tr, p, k, found.answer.value, expiresAt, j)
                                     && (expiresAt == 0 || now < expiresAt)
    ensures found.answer.None? ==>
              forall j, v, expiresAt :: LatestPut(tr, p, k, v, expiresAt, j) ==> expiresAt != 0 && now >= expiresAt
  {
    hide Legal, Replay;
    if found.answer.Some? {
      var j, expiresAt := HitServesLatestPut(tr, p);
      assert LatestPut(tr, p, k, found.answer.value, expiresAt, j);
    } else {
      forall j: nat, v, expiresAt: nat | LatestPut(tr, p, k, v, expiresAt, j)
        ensures expiresAt != 0 && now >= expiresAt
      {
        MissHasReason(tr, j, p);
      }
    }
  }

  /**
   What a get returns was settled at one point between its beginning and its
   end.  If it returns a value, that is the value of the latest put of its key
   before that point, not deleted or dropped since and not expired at the clock
   it read; if it returns nothing, then any such put had expired by that clock.
   */
  lemma GetIsExact(c: Config, ms: seq<Machine>, n: nat, t: Tid)
    requires c.sample >= 1 && Behavior(c, ms) && n < |ms|
    requires t in ms[n].threads && ms[n].threads[t].LookupDone?
    ensures var pc, tr := ms[n].threads[t], ms[n].trace;
            && pc.began <= pc.at < |tr|
            && (pc.found.answer.Some? ==>
                  exists j, expiresAt :: LatestPut(tr, pc.at, pc.key, pc.found.answer.value, expiresAt, j)
                                         && (expiresAt == 0 || pc.now < expiresAt))
            && (pc.found.answer.None? ==>
                  forall j, v, expiresAt :: LatestPut(tr, pc.at, pc.key, v, expiresAt, j)
                                            ==> expiresAt != 0 && pc.now >= expiresAt)
  {
    hide Sound, Bounded, Owned, Notices, Counters, Behavior, Legal, Replay;
    RunInvariants(c, ms, n);
    var pc, tr := ms[n].threads[t], ms[n].trace;
    assert Settled(ms[n], pc);
    AnswerIsExact(tr, pc.at, pc.key, pc.now, pc.found);
  }

  // ---- what leaves without a report ----

  lemma StartReported()
    ensures Reported(START)
  {
  }

  lemma {:induction false} RemovalsAreLosses(c: Config, ms: seq<Machine>, n: nat)
    requires Behavior(c, ms) && n < |ms|
    ensures Reported(ms[n])
  {
    hide Reported, Enabled, Apply;
    if n == 0 {
      StartReported();
    } else {
      RemovalsAreLosses(c, ms, n - 1);
      assert Next(c, ms[n - 1], ms[n - 1 + 1]);
      var t, l :| Enabled(c, ms[n - 1], t, l) && ms[n] == Apply(c, ms[n - 1], t, l);
      ReportedStep(c, ms[n - 1], t, l);
    }
  }

  /**
   An entry, whether past its expiry or not, leaves unreported exactly when a put
   or a delete of its key displaced it.  Otherwise one removal is reported, and
   as Expired exactly when the clock of whatever removed it had reached its expiry.
   */
  lemma UnreportedExactly(c: Config, ms: seq<Machine>, n: nat, j: nat, i: nat, k: Key, v: Value, expiresAt: nat)
    requires c.sample >= 1 && Behavior(c, ms) && n < |ms|
    requires i < |ms[n].trace| && LatestPut(ms[n].trace, i, k, v, expiresAt, j) && Touches(ms[n].trace[i], k)
    ensures var tr := ms[n].trace;
            var before, after := Losses(tr[..i]), Losses(tr[..i + 1]);
            && ms[n].removals == Losses(tr)
            && (after == before <==> tr[i].Put? || tr[i].Del?)
            && (tr[i].Lost? ==>
                  && after == before + [Removal(k, tr[i].cause)]
                  && (tr[i].cause == Expired <==> expiresAt != 0 && tr[i].now >= expiresAt))
  {
    hide Behavior, AllInvariants, Losses, Legal, Replay;
    RemovalsAreLosses(c, ms, n);
    HistoryIsFlat(c, ms, n);
    var tr := ms[n].trace;
    assert tr[..i + 1] == tr[..i] + [tr[i]];
    LossesExtend(tr[..i], tr[i]);
    LegalPrefix(tr, j);
    LegalPrefix(tr, i);
    Untouched(tr, j + 1, i, k);
  }

  /** The locked half of an insert reports nothing of the entry it overwrites, expired as it may be. */
  lemma OverwriteUnreported(c: Config, m: Machine, t: Tid)
    requires Enabled(c, m, t, DoStore) && m.threads[t].key in m.st.entries
    ensures var n := Apply(c, m, t, DoStore);
            && n.removals == m.removals && n.notified == m.notified && n.created == m.created
            && n.st.expired == m.st.expired && n.st.evictions == m.st.evictions
            && Sum(n.threads, Holding(Removal(m.threads[t].key, Expired)))
               == Sum(m.threads, Holding(Removal(m.threads[t].key, Expired)))
  {
    hide Copies;
    SumStep(c, m, t, DoStore, Holding(Removal(m.threads[t].key, Expired)));
  }

  /**
   So an expiry can go by without a trace: an entry that a get would have dropped
   and reported is overwritten first.
   */
  lemma ExpiredOverwritten(c: Config) returns (ms: seq<Machine>, n: nat)
    requires c.capacity == 97
    ensures Behavior(c, ms) && n < |ms| && Last(ms).threads == map[]
    ensures [7] in ms[n].st.entries && ms[n].st.entries[[7]].IsExpired(1)
    ensures [7] in Last(ms).st.entries && !Last(ms).st.entries[[7]].IsExpired(1)
    ensures Last(ms).created == 1 && Last(ms).removals == Last(ms).notified == [] && Last(ms).st.expired == 0
  {
    ms := StoreOne(c);
    n := |ms| - 1;
    ms := Extended(c, ms, 1, DoBegin(InsertStart([7], [], 0)));
    ms := Extended(c, ms, 1, DoStamp);
    ms := Extended(c, ms, 1, DoStore);
    ms := Extended(c, ms, 1, DoReadHint(|Last(ms).published| - 1));
    ms := Extended(c, ms, 1, DoFinish);
  }

  // ---- where the `expired` counter is not the number of expiries ----

  /** One more step of a run. */
  lemma RunExtend(c: Config, ms: seq<Machine>, t: Tid, l: Label)
    requires Behavior(c, ms) && Enabled(c, Last(ms), t, l)
    ensures Behavior(c, ms + [Apply(c, Last(ms), t, l)])
  {
    hide Enabled, Apply;
    var more := ms + [Apply(c, Last(ms), t, l)];
    forall i | 0 <= i < |more| - 1
      ensures Next(c, more[i], more[i + 1])
    {
      if i < |ms| - 1 {
        assert Next(c, ms[i], ms[i + 1]);
      }
    }
  }

  /** The shard once a one-byte key that expires at time 1 has been stored. */
  lemma StoreOne(c: Config) returns (ms: seq<Machine>)
    requires c.capacity == 97
    ensures Behavior(c, ms)
    ensures var m := Last(ms);
            && m.threads == map[] && m.lock == None && m.removals == [] && m.notified == [] && |m.trace| == 1
            && m.created == 1
            && m.st == State(map[[7] := Entry([], 0, 1)], 97, 1, 1, 0, 0, 0, 0)
  {
    ms := [START];
    ms := Extended(c, ms, 0, DoBegin(InsertStart([7], [], 1)));
    ms := Extended(c, ms, 0, DoStamp);
    ms := Extended(c, ms, 0, DoStore);
    ms := Extended(c, ms, 0, DoReadHint(1));
    ms := Extended(c, ms, 0, DoFinish);
  }

  lemma Extended(c: Config, ms: seq<Machine>, t: Tid, l: Label) returns (more: seq<Machine>)
    requires Behavior(c, ms) && Enabled(c, Last(ms), t, l)
    ensures Behavior(c, more) && Last(more) == Apply(c, Last(ms), t, l) && ms <= more
  {
    RunExtend(c, ms, t, l);
    more := ms + [Apply(c, Last(ms), t, l)];
  }

  /** The shard of StoreOne once two lookups have seen its entry expired, and neither has dropped it. */
  lemma BothSeeExpired(c: Config) returns (ms: seq<Machine>)
    requires c.capacity == 97
    ensures Behavior(c, ms)
    ensures var m := Last(ms);
            && m.threads == map[1 := LookupRetry([7], 1, 1), 2 := LookupRetry([7], 1, 1)]
            && m.lock == None && m.removals == [] && m.notified == [] && |m.trace| == 1
            && m.st == State(map[[7] := Entry([], 0, 1)], 97, 1, 1, 0, 0, 0, 0)
  {
    ms := StoreOne(c);
    ms := Extended(c, ms, 1, DoBegin(LookupStart([7], 1, 1)));
    ms := Extended(c, ms, 1, DoCheck);
    ms := Extended(c, ms, 2, DoBegin(LookupStart([7], 1, 1)));
    ms := Extended(c, ms, 2, DoCheck);
  }

  lemma OneDrops(c: Config) returns (ms: seq<Machine>)
    requires c.capacity == 97
    ensures Behavior(c, ms)
    ensures var m := Last(ms);
            && m.threads == map[2 := LookupRetry([7], 1, 1)] && m.lock == None
            && m.removals == [Removal([7], Expired)] && m.st.entries == map[] && m.st.expired == 1
  {
    ms := BothSeeExpired(c);
    ms := Extended(c, ms, 1, DoRecheck);
    ms := Extended(c, ms, 1, DoCountAnswer);
    ms := Extended(c, ms, 1, DoNotify);
    ms := Extended(c, ms, 1, DoFinish);
  }

  /**
   Two lookups see the same expired entry before either takes the write lock.
   Only one drops it, yet both bump `expired`.
   */
  lemma LostRaceOvercounts(c: Config) returns (ms: seq<Machine>)
    requires c.capacity == 97
    ensures Behavior(c, ms) && Last(ms).threads == map[]
    ensures Last(ms).st.expired == 2 && Count(Last(ms).removals, Expired) == 1
  {
    ms := OneDrops(c);
    ms := Extended(c, ms, 2, DoRecheck);
    ms := Extended(c, ms, 2, DoCountAnswer);
    ms := Extended(c, ms, 2, DoFinish);
  }
}
