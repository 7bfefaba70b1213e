/**
 The whole engine under any interleaving: one shard machine per shard, each key
 routed by its hash, each step taken by one thread on one shard.
 */
module Cluster {
  import opened Arithmetic
  import opened Bytes
  import opened Entries
  import opened ShardSpec
  import opened Eviction
  import opened Interleaving
  import opened MachineInvariants
  import opened MachineHistory
  import opened ShardTheorems
  import Sizing

  datatype Options = Options(capacityBytes: nat, evictSample: nat, cores: nat)

  function Shards(o: Options): (n: nat)
    ensures n > 0
  {
    Sizing.ShardCountSafe(o.capacityBytes, o.cores);
    Sizing.ShardCount(o.capacityBytes, o.cores)
  }

  function ShardConfig(o: Options): Config {
    Config(Sizing.PerShard(o.capacityBytes, Shards(o)), Max(o.evictSample, 1))
  }

  /** The shard a key belongs to; a mask of `n - 1` takes the remainder by `n`, a power of two. */
  function ShardOf(hash: Key -> nat, n: nat, k: Key): nat
    requires n > 0
  {
    hash(k) % n
  }

  lemma RoutedByMask(o: Options, hash: Key -> nat, k: Key)
    ensures ShardOf(hash, Shards(o), k) == BitAnd(hash(k), Shards(o) - 1)
  {
    hide Sizing.IsPow2;
    Sizing.ShardCountSafe(o.capacityBytes, o.cores);
    Sizing.MaskIsRemainder(hash(k), Shards(o));
  }

  type Engine = seq<Machine>

  function Initial(o: Options): Engine {
    seq(Shards(o), _ => START)
  }

  /** An operation on a key begins on that key's shard; a sweep may begin on any. */
  predicate BeginsAt(hash: Key -> nat, n: nat, l: Label, i: nat)
    requires n > 0
  {
    l.DoBegin? && (l.pc.InsertStart? || l.pc.LookupStart? || l.pc.DeleteStart?) ==> ShardOf(hash, n, l.pc.key) == i
  }

  /**
   A thread does one thing at a time.  A sweep goes from shard to shard, leaving
   with each the removals it made there, and notifies them all once it is done
   with the last.
   */
  ghost predicate InTurn(e: Engine, i: nat, t: Tid, l: Label) {
    && (l.DoBegin? ==>
          forall h :: 0 <= h < |e| && h != i && t in e[h].threads ==> l.pc.SweepStart? && e[h].threads[t].Notifying?)
    && (l.DoNotify? ==>
          forall h :: 0 <= h < |e| && h != i && t in e[h].threads ==> e[h].threads[t].Notifying?)
  }

  ghost predicate ThreadStep(c: Config, hash: Key -> nat, e: Engine, f: Engine, i: nat, t: Tid, l: Label) {
    && i < |e| && BeginsAt(hash, |e|, l, i) && InTurn(e, i, t, l)
    && Enabled(c, e[i], t, l) && f == e[i := Apply(c, e[i], t, l)]
  }

  ghost predicate EngineNext(c: Config, hash: Key -> nat, e: Engine, f: Engine) {
    exists i: nat, t: Tid, l :: ThreadStep(c, hash, e, f, i, t, l)
  }

  ghost predicate EngineBehavior(o: Options, hash: Key -> nat, es: seq<Engine>) {
    && es != [] && es[0] == Initial(o)
    && forall x :: 0 <= x < |es| - 1 ==> EngineNext(ShardConfig(o), hash, es[x], es[x + 1])
  }

  /** What a thread is about to do is about a key of this shard. */
  predicate Asks(hash: Key -> nat, n: nat, pc: Pc, i: nat)
    requires n > 0
  {
    pc.InsertStart? || pc.InsertStamped? || pc.LookupStart? || pc.LookupRetry? || pc.DeleteStart?
    ==> ShardOf(hash, n, pc.key) == i
  }

  /** Everything shard `i` holds or is being asked about hashes to `i`. */
  ghost predicate Routed(hash: Key -> nat, n: nat, m: Machine, i: nat)
    requires n > 0
  {
    && (forall k :: k in m.st.entries ==> ShardOf(hash, n, k) == i)
    && (forall x :: 0 <= x < |m.trace| ==> ShardOf(hash, n, m.trace[x].key) == i)
    && (forall t :: t in m.threads ==> Asks(hash, n, m.threads[t], i))
  }

  ghost predicate EngineInvariants(c: Config, hash: Key -> nat, e: Engine) {
    e != [] && forall i :: 0 <= i < |e| ==> AllInvariants(c, e[i]) && Routed(hash, |e|, e[i], i)
  }

  lemma RoutedKeys(c: Config, hash: Key -> nat, n: nat, m: Machine, i: nat, t: Tid, l: Label)
    requires n > 0 && Routed(hash, n, m, i) && Enabled(c, m, t, l)
    ensures forall k :: k in Apply(c, m, t, l).st.entries ==> ShardOf(hash, n, k) == i
  {
    hide TotalRam, TtlKeys, CanPick, ListsExpired, Count, ShardOf;
  }

  lemma RoutedTrace(c: Config, hash: Key -> nat, n: nat, m: Machine, i: nat, t: Tid, l: Label)
    requires n > 0 && Routed(hash, n, m, i) && Enabled(c, m, t, l)
    ensures var tr := Apply(c, m, t, l).trace; forall x :: 0 <= x < |tr| ==> ShardOf(hash, n, tr[x].key) == i
  {
    hide Update, Drop, Touch, CanPick, ListsExpired, Counted, CountLookup, ShardOf;
  }

  lemma RoutedThreads(c: Config, hash: Key -> nat, n: nat, m: Machine, i: nat, t: Tid, l: Label)
    requires n > 0 && Routed(hash, n, m, i) && BeginsAt(hash, n, l, i) && Enabled(c, m, t, l)
    ensures var f := Apply(c, m, t, l); forall u :: u in f.threads ==> Asks(hash, n, f.threads[u], i)
  {
    hide Update, Drop, Touch, CanPick, ListsExpired, Counted, CountLookup, ShardOf;
  }

  lemma RoutedStep(c: Config, hash: Key -> nat, n: nat, m: Machine, i: nat, t: Tid, l: Label)
    requires n > 0 && Routed(hash, n, m, i) && BeginsAt(hash, n, l, i) && Enabled(c, m, t, l)
    ensures Routed(hash, n, Apply(c, m, t, l), i)
  {
    hide Apply, Enabled, ShardOf;
    RoutedKeys(c, hash, n, m, i, t, l);
    RoutedTrace(c, hash, n, m, i, t, l);
    RoutedThreads(c, hash, n, m, i, t, l);
  }

  lemma EngineInvariantsStep(c: Config, hash: Key -> nat, e: Engine, f: Engine)
    requires c.sample >= 1 && EngineInvariants(c, hash, e) && EngineNext(c, hash, e, f)
    ensures EngineInvariants(c, hash, f) && |f| == |e|
  {
    hide AllInvariants, Routed, Enabled, Apply, BeginsAt;
    var i: nat, t: Tid, l :| ThreadStep(c, hash, e, f, i, t, l);
    StepInvariants(c, e[i], t, l);
    RoutedStep(c, hash, |e|, e[i], i, t, l);
  }

  lemma {:induction false} EngineHolds(o: Options, hash: Key -> nat, es: seq<Engine>, x: nat)
    requires EngineBehavior(o, hash, es) && x < |es|
    ensures EngineInvariants(ShardConfig(o), hash, es[x]) && |es[x]| == Shards(o)
  {
    hide AllInvariants, EngineNext, ShardConfig, Shards;
    if x == 0 {
      StartInvariants(ShardConfig(o));
    } else {
      EngineHolds(o, hash, es, x - 1);
      assert EngineNext(ShardConfig(o), hash, es[x - 1], es[x - 1 + 1]);
      SampleAtLeastOne(o);
      EngineInvariantsStep(ShardConfig(o), hash, es[x - 1], es[x]);
    }
  }

  lemma SampleAtLeastOne(o: Options)
    ensures ShardConfig(o).sample >= 1
  {
  }

  // ---- routing ----

  /** Every key lives only in the shard its hash selects, and is only ever answered there. */
  lemma KeysStayHome(o: Options, hash: Key -> nat, es: seq<Engine>, x: nat, i: nat, k: Key)
    requires EngineBehavior(o, hash, es) && x < |es| && i < |es[x]|
    requires k in es[x][i].st.entries || exists j :: 0 <= j < |es[x][i].trace| && es[x][i].trace[j].key == k
    ensures ShardOf(hash, Shards(o), k) == i
  {
    hide AllInvariants;
    EngineHolds(o, hash, es, x);
  }

  // ---- notices ----

  /**
   The listener is told of a removal only by a thread that holds no lock of any
   shard, be it a sweep that has been through many.
   */
  lemma NotifierHoldsNoLock(o: Options, hash: Key -> nat, es: seq<Engine>, x: nat, i: nat, t: Tid, h: nat)
    requires EngineBehavior(o, hash, es) && x < |es| - 1
    requires ThreadStep(ShardConfig(o), hash, es[x], es[x + 1], i, t, DoNotify) && h < |es[x]|
    ensures es[x][h].lock != Some(t)
  {
    hide Routed, EngineBehavior, ShardConfig;
    hide AllInvariants, Enabled, Apply;
    EngineHolds(o, hash, es, x);
    assert es[x][i].threads[t].Notifying? by { NotifierThere(ShardConfig(o), es[x][i], t); }
    NotifyingHoldsNone(ShardConfig(o), es[x][h], t);
  }

  lemma NotifierThere(c: Config, m: Machine, t: Tid)
    requires Enabled(c, m, t, DoNotify)
    ensures t in m.threads && m.threads[t].Notifying?
  {
  }

  lemma NotifyingHoldsNone(c: Config, m: Machine, t: Tid)
    requires AllInvariants(c, m) && (t in m.threads ==> m.threads[t].Notifying?)
    ensures m.lock != Some(t)
  {
    hide Bounded, Owned, Notices, Counters, Linear, Honest;
    if t in m.threads {
      assert Local(c, m, t);
    }
  }

  // ---- the bound over all shards ----

  /** Memory charged across the engine: its key bytes, its value bytes and 96 an entry. */
  ghost function EngineRam(e: Engine): nat {
    if e == [] then 0
    else
      var m := e[|e| - 1].st.entries;
      EngineRam(e[..|e| - 1]) + KeyBytes(m) + ValueBytes(m) + 96 * |m|
  }

  ghost function EngineInFlight(e: Engine): nat {
    if e == [] then 0 else EngineInFlight(e[..|e| - 1]) + InFlightBytes(e[|e| - 1])
  }

  lemma OneShardBound(c: Config, m: Machine)
    requires AllInvariants(c, m)
    ensures var e := m.st.entries;
            var charged := KeyBytes(e) + ValueBytes(e) + 96 * |e|;
            && charged <= c.capacity + InFlightBytes(m)
            && (NoInsertInFlight(m) ==> charged <= c.capacity)
            && (c.capacity < 96 && NoInsertInFlight(m) ==> charged == 0)
  {
    hide AllInvariants, NoInsertInFlight, InFlightBytes;
    BoundOfInvariants(c, m);
    ChargeExactly(m.st.entries);
    if m.st.entries != map[] {
      RamOfNonEmpty(m.st.entries);
    }
  }

  lemma {:induction false} EngineRamBound(c: Config, e: Engine)
    requires forall i :: 0 <= i < |e| ==> AllInvariants(c, e[i])
    ensures EngineRam(e) <= |e| * c.capacity + EngineInFlight(e)
    ensures (forall i :: 0 <= i < |e| ==> NoInsertInFlight(e[i])) ==> EngineRam(e) <= |e| * c.capacity
    ensures c.capacity < 96 && (forall i :: 0 <= i < |e| ==> NoInsertInFlight(e[i])) ==> EngineRam(e) == 0
  {
    hide AllInvariants, NoInsertInFlight, InFlightBytes, KeyBytes, ValueBytes;
    if e == [] {
    } else {
      var shorter, m := e[..|e| - 1], e[|e| - 1];
      EngineRamBound(c, shorter);
      OneShardBound(c, m);
      Distribute(|shorter|, 1, c.capacity);
    }
  }

  /** The shards' budgets use the engine's capacity up, to less than a byte a shard. */
  lemma ShardBudgets(o: Options)
    ensures var n, share := Shards(o), ShardConfig(o).capacity;
            && n * share > o.capacityBytes - n
            && if o.capacityBytes >= n then n * share <= o.capacityBytes else share == 1
    ensures Shards(o) * ShardConfig(o).capacity <= Max(o.capacityBytes, Shards(o))
    ensures Shards(o) == Sizing.ShardCount(o.capacityBytes, o.cores)
    ensures ShardConfig(o).sample == if o.evictSample == 0 then 1 else o.evictSample
  {
    hide Sizing.ShardCount;
    Sizing.BudgetsUseCapacity(o.capacityBytes, Shards(o));
  }

  /**
   `capacity_bytes` is a hard bound on the whole engine: with no insert in
   flight it is never exceeded, even when it is smaller than the number of
   shards, and while some are it is exceeded by no more than what they stored
   beyond the shards' budgets.
   */
  lemma EngineMemoryBound(o: Options, hash: Key -> nat, es: seq<Engine>, x: nat)
    requires EngineBehavior(o, hash, es) && x < |es|
    ensures EngineRam(es[x]) <= Max(o.capacityBytes, Shards(o)) + EngineInFlight(es[x])
    ensures (forall i :: 0 <= i < |es[x]| ==> NoInsertInFlight(es[x][i])) ==> EngineRam(es[x]) <= o.capacityBytes
  {
    hide AllInvariants, Routed, NoInsertInFlight, EngineBehavior, EngineRam, EngineInFlight, Shards, ShardConfig;
    EngineHolds(o, hash, es, x);
    EngineRamBound(ShardConfig(o), es[x]);
    ShardBudgets(o);
  }

  /** No entry is larger than its shard's equal part of the capacity. */
  lemma EntryFitsShare(o: Options, hash: Key -> nat, es: seq<Engine>, x: nat, i: nat, k: Key)
    requires EngineBehavior(o, hash, es) && x < |es| && i < |es[x]| && NoInsertInFlight(es[x][i])
    requires k in es[x][i].st.entries
    ensures Shards(o) * (|k| + |es[x][i].st.entries[k].value| + 96) <= o.capacityBytes
  {
    hide AllInvariants, Routed, NoInsertInFlight, EngineBehavior, Shards, ShardConfig;
    EngineHolds(o, hash, es, x);
    BoundOfInvariants(ShardConfig(o), es[x][i]);
    EntryWithinCharge(es[x][i].st.entries, k);
    ShardBudgets(o);
    PartsFit(Shards(o), |k| + |es[x][i].st.entries[k].value| + 96, ShardConfig(o).capacity);
  }

  lemma PartsFit(n: nat, part: nat, share: nat)
    ensures part <= share ==> n * part <= n * share
  {
    TimesMonotone(part, share, n);
  }

  // ---- the bound over a node ----

  /** A state some run of the engine reaches, with no insert in flight. */
  ghost predicate Quiet(o: Options, hash: Key -> nat, e: Engine) {
    && (exists es, x: nat :: EngineBehavior(o, hash, es) && x < |es| && es[x] == e)
    && forall i :: 0 <= i < |e| ==> NoInsertInFlight(e[i])
  }

  lemma QuietBound(o: Options, hash: Key -> nat, e: Engine)
    requires Quiet(o, hash, e)
    ensures EngineRam(e) <= o.capacityBytes
  {
    hide EngineBehavior, EngineRam, NoInsertInFlight;
    var es, x: nat :| EngineBehavior(o, hash, es) && x < |es| && es[x] == e;
    EngineMemoryBound(o, hash, es, x);
  }

  /** Memory charged by the named keyspaces. */
  ghost function NodeRam(names: set<Blob>, engines: map<Blob, Engine>): nat
    requires names <= engines.Keys
  {
    if names == {} then 0 else
      var name :| name in names;
      EngineRam(engines[name]) + NodeRam(names - {name}, engines)
  }

  lemma {:induction false} NodeRamBound(names: set<Blob>, engines: map<Blob, Engine>, share: nat)
    requires names <= engines.Keys && forall name :: name in names ==> EngineRam(engines[name]) <= share
    ensures NodeRam(names, engines) <= |names| * share
    decreases |names|
  {
    hide EngineRam;
    if names == {} {
    } else {
      var name :| name in names
                  && NodeRam(names, engines) == EngineRam(engines[name]) + NodeRam(names - {name}, engines);
      NodeRamBound(names - {name}, engines, share);
      Distribute(|names| - 1, 1, share);
    }
  }

  /**
   From the detected ceiling to the bytes in the tables: whatever the
   configurations, those of one name included, the keyspaces that size themselves
   from one ceiling of at least 320 MiB together hold at least 256 MiB less than
   it whenever none of them has an insert in flight.
   */
  lemma NodeMemoryBound(configs: seq<Sizing.KeyspaceConfig>, keyspaces: map<Blob, Sizing.Built>,
                        engines: map<Blob, Engine>, limit: nat, cores: nat, hashes: Blob -> (Key -> nat))
    requires Sizing.IsBuilt(configs, Some(limit), keyspaces) && limit >= 335544320
    requires engines.Keys == keyspaces.Keys
    requires forall name :: name in engines ==>
               var built := keyspaces[name];
               Quiet(Options(built.capacityBytes, built.evictSample, cores), hashes(name), engines[name])
    ensures Sizing.AutoNames(configs) <= engines.Keys
    ensures NodeRam(Sizing.AutoNames(configs), engines) + 268435456 <= limit
  {
    hide Quiet, EngineRam, NodeRam, Sizing.Resolve, Sizing.AutoNames, Sizing.AutoConfigs;
    var names, n := Sizing.AutoNames(configs), Max(Sizing.AutoConfigs(configs), 1);
    var bytes := Sizing.Resolve(None, Some(limit)).bytes;
    forall name | name in names
      ensures name in engines && EngineRam(engines[name]) <= bytes / n
    {
      Sizing.AutoNamesExactly(configs, name);
      var built := keyspaces[name];
      QuietBound(Options(built.capacityBytes, built.evictSample, cores), hashes(name), engines[name]);
    }
    Sizing.AutoNamesExactly(configs, []);
    NodeRamBound(names, engines, bytes / n);
    Sizing.ShareFits(|names|, n, bytes);
    Sizing.HeadroomExactly(limit);
  }
}
