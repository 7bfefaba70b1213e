/** The sharded engine, run by one thread at a time. */
module Engine {
  import opened Arithmetic
  import opened Bytes
  import opened Entries
  import opened ShardSpec
  import opened ShardRuns
  import opened Shards
  import opened EngineRuns
  import Eviction
  import Sizing

  /** Totals over all shards, as the health endpoint reports them. */
  datatype Stats = Stats(hits: int, misses: int, evictions: int, expired: int, keys: int, bytes: int)

  function StatsOf(ss: seq<State>): Stats {
    if ss == [] then Stats(0, 0, 0, 0, 0, 0)
    else
      var t, s := StatsOf(ss[..|ss| - 1]), ss[|ss| - 1];
      Stats(t.hits + s.hits, t.misses + s.misses, t.evictions + s.evictions, t.expired + s.expired,
            t.keys + |s.entries|, t.bytes + s.bytes)
  }

  /** Something of each shard, added up. */
  ghost function Total(ss: seq<State>, of: State -> int): int {
    if ss == [] then 0 else Total(ss[..|ss| - 1], of) + of(ss[|ss| - 1])
  }

  /** Each statistic is the total of what it is named for. */
  lemma {:induction false} StatsExactly(ss: seq<State>)
    ensures var s := StatsOf(ss);
            && s.hits == Total(ss, (t: State) => t.hits) && s.misses == Total(ss, (t: State) => t.misses)
            && s.evictions == Total(ss, (t: State) => t.evictions) && s.expired == Total(ss, (t: State) => t.expired)
            && s.keys == Total(ss, (t: State) => |t.entries|) && s.bytes == Total(ss, (t: State) => t.bytes)
  {
    if ss == [] {
    } else {
      StatsExactly(ss[..|ss| - 1]);
    }
  }

  /** Entries carrying an expiry, counted one by one. */
  function TtlCount(ss: seq<State>): nat {
    if ss == [] then 0 else TtlCount(ss[..|ss| - 1]) + |TtlKeys(ss[|ss| - 1].entries)|
  }

  /** The memory really charged: key bytes, value bytes and 96 an entry. */
  ghost function RamOf(ss: seq<State>): nat {
    if ss == [] then 0
    else
      var m := ss[|ss| - 1].entries;
      RamOf(ss[..|ss| - 1]) + KeyBytes(m) + ValueBytes(m) + 96 * |m|
  }

  class CacheEngine {
    const shards: seq<Shard>
    const capacity: nat
    const evictSample: nat
    const hash: Key -> nat
    var sweepCursor: nat
    /** What the eviction listener has been told, oldest first. */
    var log: seq<Removal>

    ghost function View(): EngineState
      reads this, shards
    {
      EngineState(seq(|shards|, i requires 0 <= i < |shards| reads shards => shards[i].View()), sweepCursor)
    }

    ghost predicate Distinct() {
      forall i, j :: 0 <= i < j < |shards| ==> shards[i] != shards[j]
    }

    ghost predicate ShardsValid()
      reads shards
    {
      forall i :: 0 <= i < |shards| ==>
        shards[i].Valid() && shards[i].capacity == capacity && shards[i].bytes <= capacity
    }

    /** Every key sits in the shard its hash selects. */
    ghost predicate KeysRouted()
      requires |shards| > 0
      reads shards
    {
      forall i, k :: 0 <= i < |shards| && k in shards[i].entries ==> ShardIndex(k) == i
    }

    ghost predicate Valid()
      reads this, shards
    {
      && evictSample >= 1 && |shards| > 0 && ShardCountOk(|shards|) && sweepCursor < WORD
      && Distinct() && ShardsValid() && KeysRouted()
    }

    function ShardIndex(key: Key): (i: nat)
      requires |shards| > 0
      ensures i < |shards|
    {
      hash(key) % |shards|
    }

    /** Routing masks the hash with one less than the shard count. */
    lemma RoutedByMask(key: Key)
      requires Valid()
      ensures ShardIndex(key) == BitAnd(hash(key), |shards| - 1)
    {
      Sizing.MaskIsRemainder(hash(key), |shards|);
    }

    constructor (capacityBytes: nat, evictSample: nat, cores: nat, hash: Key -> nat)
      ensures Valid() && fresh(shards) && log == []
      ensures |shards| == Sizing.ShardCount(capacityBytes, cores)
      ensures capacity == Sizing.PerShard(capacityBytes, |shards|) && this.hash == hash
      ensures |shards| * capacity > capacityBytes - |shards|
      ensures if capacityBytes >= |shards| then |shards| * capacity <= capacityBytes else capacity == 1
      ensures this.evictSample == (if evictSample == 0 then 1 else evictSample) && sweepCursor == 0
      ensures forall i :: 0 <= i < |shards| ==> shards[i].View() == INIT
    {
      hide Sizing.ShardCount, Sizing.IsPow2, Sizing.PerShard;
      Sizing.ShardCountSafe(capacityBytes, cores);
      Sizing.BudgetsUseCapacity(capacityBytes, Sizing.ShardCount(capacityBytes, cores));
      var n := Sizing.ShardCount(capacityBytes, cores);
      var perShard := Sizing.PerShard(capacityBytes, n);
      var made: seq<Shard> := [];
      while |made| < n
        invariant |made| <= n && fresh(made)
        invariant forall i, j :: 0 <= i < j < |made| ==> made[i] != made[j]
        invariant forall i :: 0 <= i < |made| ==>
                    made[i].Valid() && made[i].capacity == perShard && made[i].View() == INIT
      {
        var s := new Shard(perShard);
        made := made + [s];
      }
      shards := made;
      capacity := perShard;
      this.evictSample := Max(evictSample, 1);
      this.hash := hash;
      sweepCursor, log := 0, [];
    }

    /** Tell the listener, in order; called with no shard's critical section open. */
    method NotifyRemoved(removed: seq<Removal>)
      modifies this`log
      ensures log == old(log) + removed
    {
      log := log + removed;
    }

    /** A step of one shard leaves it within budget, holding only keys that belong to it. */
    lemma OneShard(before: State, idx: nat, op: Op)
      requires idx < |shards| && Inv(before) && before.bytes <= capacity
      requires forall k :: k in before.entries ==> ShardIndex(k) == idx
      requires Step(capacity, evictSample, before, op, shards[idx].View())
      requires op.Insert? ==> ShardIndex(op.key) == idx
      ensures shards[idx].bytes <= capacity
      ensures forall k :: k in shards[idx].entries ==> ShardIndex(k) == idx
    {
      hide Step;
      StepKeeps(capacity, evictSample, before, op, shards[idx].View());
      forall k | k in shards[idx].entries
        ensures ShardIndex(k) == idx
      {
        if !(op.Insert? && op.key == k) {
          NotWritten(capacity, evictSample, before, op, shards[idx].View(), k);
        }
      }
    }

    /** Insert or overwrite.  `now` is the clock the eviction reads, if it runs. */
    method Insert(key: Key, value: Value, expiresAt: nat, now: nat)
      requires Valid()
      modifies shards[ShardIndex(key)], this`log
      ensures Valid() && old(log) <= log
      ensures EngineStep(capacity, evictSample, old(View()),
                         On(ShardIndex(key), Op.Insert(key, value, expiresAt, now, log[|old(log)|..])), View())
      ensures var before := old(View()).shards[ShardIndex(key)];
              log == old(log) <==>
                before.bytes + |key| + |value| + 96
                - (if key in before.entries then |key| + |before.entries[key].value| + 96 else 0) <= capacity
    {
      hide ShardCountOk, TotalRam, TtlKeys, Eviction.Evicts, DropAll, Update, Counted, Touch, Drop;
      ghost var before := View();
      var idx := ShardIndex(key);
      var removed := shards[idx].Insert(key, value, expiresAt, evictSample, now);
      OneShard(before.shards[idx], idx, Op.Insert(key, value, expiresAt, now, removed));
      InsertEvictsExactly(capacity, evictSample, before.shards[idx], key, value, expiresAt, now, removed);
      NotifyRemoved(removed);
      assert log[|old(log)|..] == removed;
      assert View().shards == before.shards[idx := shards[idx].View()];
    }

    /** Read a key: what a flat map of live entries would answer. */
    method Get(key: Key, now: nat) returns (answer: Option<Value>)
      requires Valid()
      modifies shards[ShardIndex(key)], this`log
      ensures Valid() && EngineStep(capacity, evictSample, old(View()), On(ShardIndex(key), Op.Get(key, now)), View())
      ensures var entries := old(shards[ShardIndex(key)].entries);
              && answer == (if key in entries && !entries[key].IsExpired(now) then Some(entries[key].value) else None)
              && log == old(log)
                        + (if key in entries && entries[key].IsExpired(now) then [Removal(key, Expired)] else [])
    {
      hide ShardCountOk, TotalRam, TtlKeys, Eviction.Evicts, DropAll, Update, Counted, Touch, Drop;
      ghost var before := View();
      var idx := ShardIndex(key);
      var found := shards[idx].Get(key, now);
      OneShard(before.shards[idx], idx, Op.Get(key, now));
      NotifyRemoved(found.removed);
      answer := found.answer;
      assert View().shards == before.shards[idx := shards[idx].View()];
    }

    method Delete(key: Key) returns (found: bool)
      requires Valid()
      modifies shards[ShardIndex(key)]
      ensures Valid() && EngineStep(capacity, evictSample, old(View()), On(ShardIndex(key), Op.Delete(key)), View())
      ensures found == (key in old(shards[ShardIndex(key)].entries))
    {
      hide ShardCountOk, TotalRam, TtlKeys, Eviction.Evicts, DropAll, Update, Counted, Touch, Drop;
      ghost var before := View();
      var idx := ShardIndex(key);
      found := shards[idx].Delete(key);
      OneShard(before.shards[idx], idx, Op.Delete(key));
      assert View().shards == before.shards[idx := shards[idx].View()];
    }

    /** Sweep one shard as part of a larger sweep; the others stay as they are. */
    method ReapShard(idx: nat, now: nat) returns (removed: seq<Removal>)
      requires ShardsValid() && Distinct() && idx < |shards| && KeysRouted()
      modifies shards[idx]
      ensures ShardsValid() && KeysRouted()
      ensures Step(capacity, evictSample, old(shards[idx].View()), Sweep(now, removed), shards[idx].View())
      ensures forall k :: k in shards[idx].entries ==> !shards[idx].entries[k].IsExpired(now)
      ensures forall x :: 0 <= x < |shards| && x != idx ==> shards[x].View() == old(shards[x].View())
    {
      removed := shards[idx].Reap(now);
      StepKeeps(capacity, evictSample, old(shards[idx].View()), Sweep(now, removed), shards[idx].View());
      SweptClean(capacity, evictSample, old(shards[idx].View()), now, removed, shards[idx].View());
    }

    /**
     One tick of the background sweep: the next `count` shards from the cursor,
     which moves on and wraps.  `nows` are the clock readings, one per shard.
     */
    method ReapSome(count: nat, nows: seq<nat>) returns (reclaimed: nat, ghost parts: seq<seq<Removal>>)
      requires Valid() && |nows| == Min(count, |shards|)
      modifies this`sweepCursor, this`log, shards
      ensures Valid()
      ensures EngineStep(capacity, evictSample, old(View()), Tick(count, nows, parts), View())
      ensures log == old(log) + Flatten(parts) && reclaimed == |Flatten(parts)|
    {
      hide Step, Visited, ShardCountOk, Shard.Valid, KeysRouted, Flatten;
      ghost var before := View();
      var n := |shards|;
      var start := sweepCursor;
      sweepCursor := Advance(start, count);
      FlattenNone();
      var removed := [];
      parts := [];
      var i := 0;
      while i < |nows|
        invariant 0 <= i <= |nows| && |parts| == i
        invariant sweepCursor == Advance(start, count) && log == old(log)
        invariant ShardsValid() && KeysRouted() && removed == Flatten(parts)
        invariant forall x :: 0 <= x < i ==>
                    var idx := Visited(start, x, n);
                    Step(capacity, evictSample, before.shards[idx], Sweep(nows[x], parts[x]), shards[idx].View())
        invariant forall idx :: 0 <= idx < n && (forall x :: 0 <= x < i ==> Visited(start, x, n) != idx)
                                ==> shards[idx].View() == before.shards[idx]
      {
        var idx := Visited(start, i, n);
        VisitsDistinct(start, n, i);
        var part := ReapShard(idx, nows[i]);
        FlattenMore(parts, part);
        removed := removed + part;
        parts := parts + [part];
        i := i + 1;
      }
      reclaimed := |removed|;
      NotifyRemoved(removed);
    }

    /** The complete sweep: every shard, at once. */
    method ReapExpired(nows: seq<nat>) returns (ghost parts: seq<seq<Removal>>)
      requires Valid() && |nows| == |shards|
      modifies this`log, shards
      ensures Valid() && sweepCursor == old(sweepCursor)
      ensures |parts| == |shards| && log == old(log) + Flatten(parts)
      ensures forall i :: 0 <= i < |shards| ==>
                && Step(capacity, evictSample, old(View()).shards[i], Sweep(nows[i], parts[i]), View().shards[i])
                && forall k :: k in shards[i].entries ==> !shards[i].entries[k].IsExpired(nows[i])
    {
      hide Step, ShardCountOk, Shard.Valid, ShardIndex, Flatten;
      FlattenNone();
      ghost var before := View();
      var removed := [];
      parts := [];
      for i := 0 to |shards|
        invariant sweepCursor == old(sweepCursor) && log == old(log)
        invariant |parts| == i && ShardsValid() && KeysRouted() && removed == Flatten(parts)
        invariant forall x :: 0 <= x < i ==>
                    Step(capacity, evictSample, before.shards[x], Sweep(nows[x], parts[x]), shards[x].View())
        invariant forall x :: i <= x < |shards| ==> shards[x].View() == before.shards[x]
        invariant forall x, k :: 0 <= x < i && k in shards[x].View().entries
                                 ==> !shards[x].View().entries[k].IsExpired(nows[x])
      {
        var part := ReapShard(i, nows[i]);
        FlattenMore(parts, part);
        removed := removed + part;
        parts := parts + [part];
      }
      NotifyRemoved(removed);
    }

    lemma ViewsExact()
      requires Valid()
      ensures forall i :: 0 <= i < |shards| ==> Exact(View().shards[i]) && View().shards[i].bytes <= capacity
    {
    }

    /** Totals over the shards; the bytes reported are the memory really charged, and within the budget. */
    method Statistics() returns (s: Stats)
      requires Valid()
      ensures var ss := View().shards;
              && s.hits == Total(ss, (t: State) => t.hits) && s.misses == Total(ss, (t: State) => t.misses)
              && s.evictions == Total(ss, (t: State) => t.evictions)
              && s.expired == Total(ss, (t: State) => t.expired) && s.keys == Total(ss, (t: State) => |t.entries|)
      ensures s == StatsOf(View().shards)
      ensures s.bytes == RamOf(View().shards) && s.bytes <= |shards| * capacity
    {
      hide ShardCountOk, Shard.Valid, Exact;
      s := Stats(0, 0, 0, 0, 0, 0);
      ghost var ss := View().shards;
      ViewsExact();
      for i := 0 to |shards|
        invariant s == StatsOf(ss[..i])
      {
        assert ss[..i + 1][..i] == ss[..i];
        var c := shards[i];
        s := Stats(s.hits + c.hits, s.misses + c.misses, s.evictions + c.evictions, s.expired + c.expired,
                   s.keys + |c.entries|, s.bytes + c.bytes);
      }
      assert ss[..|shards|] == ss;
      StatsExactly(ss);
      BytesAreRam(ss, capacity);
    }

    lemma HintExact(i: nat)
      requires Valid() && i < |shards|
      ensures shards[i].ttlHint == |TtlKeys(View().shards[i].entries)|
    {
      assert shards[i].Valid();
    }

    /** The number of keys carrying an expiry, read off the mirrors without a lock. */
    method TrackedTtlKeys() returns (n: int)
      requires Valid()
      ensures n == TtlCount(View().shards)
    {
      hide ShardCountOk, Shard.Valid, TtlKeys;
      n := 0;
      ghost var ss := View().shards;
      for i := 0 to |shards|
        invariant n == TtlCount(ss[..i])
      {
        assert ss[..i + 1][..i] == ss[..i];
        HintExact(i);
        n := n + shards[i].ttlHint;
      }
      assert ss[..|shards|] == ss;
    }

    /** The same number, by walking every entry of every shard. */
    method CountTtlKeysByScan() returns (n: nat)
      requires Valid()
      ensures n == TtlCount(View().shards)
    {
      hide ShardCountOk, Shard.Valid, TtlKeys;
      n := 0;
      ghost var ss := View().shards;
      for i := 0 to |shards|
        invariant n == TtlCount(ss[..i])
      {
        assert ss[..i + 1][..i] == ss[..i];
        var c := ScanTtl(shards[i].entries);
        n := n + c;
      }
      assert ss[..|shards|] == ss;
    }
  }

  method ScanTtl(m: Table) returns (n: nat)
    ensures n == |TtlKeys(m)|
  {
    n := 0;
    var rest := m;
    while rest != map[]
      invariant n + |TtlKeys(rest)| == |TtlKeys(m)|
      decreases |rest|
    {
      var k :| k in rest;
      TtlWithout(rest, k);
      if rest[k].expiresAt != 0 {
        n := n + 1;
      }
      rest := rest - {k};
    }
  }

  function Flatten(parts: seq<seq<Removal>>): seq<Removal> {
    if parts == [] then [] else Flatten(parts[..|parts| - 1]) + parts[|parts| - 1]
  }

  lemma FlattenNone()
    ensures Flatten([]) == []
  {
  }

  lemma FlattenMore(parts: seq<seq<Removal>>, part: seq<Removal>)
    ensures Flatten(parts + [part]) == Flatten(parts) + part
  {
    assert (parts + [part])[..|parts|] == parts;
  }

  lemma VisitsDiffer(start: nat, n: nat, x: nat, i: nat)
    requires ShardCountOk(n) && x < i < n && start < WORD
    ensures Visited(start, x, n) != Visited(start, i, n)
  {
    hide ShardCountOk, Offset, Visited;
    VisitedFrom(start, x, n, Visited(start, i, n));
    VisitedFrom(start, i, n, Visited(start, i, n));
  }

  /** The shards one tick visits are distinct. */
  lemma VisitsDistinct(start: nat, n: nat, i: nat)
    requires ShardCountOk(n) && i < n && start < WORD
    ensures forall x :: 0 <= x < i ==> Visited(start, x, n) != Visited(start, i, n)
  {
    hide ShardCountOk, Visited;
    forall x | 0 <= x < i
      ensures Visited(start, x, n) != Visited(start, i, n)
    {
      VisitsDiffer(start, n, x, i);
    }
  }

  lemma SweptClean(capacity: nat, sample: nat, s: State, now: nat, removed: seq<Removal>, t: State)
    requires Inv(s) && Step(capacity, sample, s, Sweep(now, removed), t)
    ensures forall k :: k in t.entries ==> !t.entries[k].IsExpired(now)
  {
    SweepComplete(s, now, removed);
  }

  lemma {:induction false} BytesAreRam(ss: seq<State>, capacity: nat)
    requires forall i :: 0 <= i < |ss| ==> Exact(ss[i]) && ss[i].bytes <= capacity
    ensures StatsOf(ss).bytes == RamOf(ss) <= |ss| * capacity
  {
    if ss == [] {
    } else {
      BytesAreRam(ss[..|ss| - 1], capacity);
      ChargeExactly(ss[|ss| - 1].entries);
      Distribute(|ss| - 1, 1, capacity);
    }
  }
}
