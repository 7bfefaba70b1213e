/**
 The background sweep under interleaving: it skips a shard on the strength of a
 mirror read without a lock, reads its clock before it takes the lock, and shares
 the shard with everything else; it still reclaims what had expired.
 */
module Sweeps {
  import opened Entries
  import opened ShardSpec
  import opened History
  import opened Interleaving
  import opened MachineInvariants
  import opened MachineHistory
  import opened ShardTheorems
  import opened EngineRuns
  import Cluster
  import Eviction
  import Sizing

  /** One shard as an engine's run has it: it steps, or stays as it is while another shard steps. */
  ghost predicate Trail(c: Config, ms: seq<Machine>) {
    && c.sample >= 1 && ms != [] && AllInvariants(c, ms[0])
    && forall i :: 0 <= i < |ms| - 1 ==> ms[i + 1] == ms[i] || Next(c, ms[i], ms[i + 1])
  }

  lemma {:induction false} TrailInvariants(c: Config, ms: seq<Machine>, n: nat)
    requires Trail(c, ms) && n < |ms|
    ensures AllInvariants(c, ms[n])
  {
    hide AllInvariants, Enabled, Apply;
    if n == 0 {
    } else {
      TrailInvariants(c, ms, n - 1);
      assert ms[n - 1 + 1] == ms[n - 1] || Next(c, ms[n - 1], ms[n - 1 + 1]);
      if ms[n] != ms[n - 1] {
        var t, l :| Enabled(c, ms[n - 1], t, l) && ms[n] == Apply(c, ms[n - 1], t, l);
        StepInvariants(c, ms[n - 1], t, l);
      }
    }
  }

  lemma {:induction false} TrailGrows(c: Config, ms: seq<Machine>, r: nat, n: nat)
    requires Trail(c, ms) && r <= n < |ms|
    ensures ms[r].trace <= ms[n].trace && |ms[r].ttlPublished| <= |ms[n].ttlPublished|
    decreases n
  {
    hide AllInvariants, Enabled, Apply;
    if n == r {
    } else {
      TrailGrows(c, ms, r, n - 1);
      assert ms[n - 1 + 1] == ms[n - 1] || Next(c, ms[n - 1], ms[n - 1 + 1]);
      if ms[n] != ms[n - 1] {
        var t, l :| Enabled(c, ms[n - 1], t, l) && ms[n] == Apply(c, ms[n - 1], t, l);
        TraceGrows(c, ms[n - 1], t, l);
        PublishedGrows(c, ms[n - 1], t, l);
      }
    }
  }

  // ---- an entry nothing touches ----

  /** Between two states nothing put, deleted or dropped `k`. */
  predicate LeftAlone(m: Machine, n: Machine, k: Key) {
    forall x :: |m.trace| <= x < |n.trace| ==> !Touches(n.trace[x], k)
  }

  lemma StillHere(c: Config, ms: seq<Machine>, r: nat, n: nat, k: Key)
    requires Trail(c, ms) && r <= n < |ms| && k in ms[r].st.entries && LeftAlone(ms[r], ms[n], k)
    ensures k in ms[n].st.entries && ms[n].st.entries[k].expiresAt == ms[r].st.entries[k].expiresAt
  {
    hide Trail, Sound, Bounded, Owned, Notices, Counters, Honest, Legal, Replay;
    TrailInvariants(c, ms, r);
    TrailInvariants(c, ms, n);
    TrailGrows(c, ms, r, n);
    var i, tr := |ms[r].trace|, ms[n].trace;
    assert tr[..i] == ms[r].trace && tr[..|tr|] == tr;
    Untouched(tr, i, |tr|, k);
    assert k in Cells(ms[r].st.entries);
    assert k in Cells(ms[n].st.entries);
  }

  /** Where in the list of published values the one now shown stands. */
  function Newest(m: Machine): nat {
    if m.ttlPublished == [] then 0 else |m.ttlPublished| - 1
  }

  /** While it is there, no value the TTL mirror shows is zero. */
  lemma {:induction false} MirrorShows(c: Config, ms: seq<Machine>, r: nat, n: nat, k: Key)
    requires Trail(c, ms) && r <= n < |ms| && k in ms[r].st.entries && ms[r].st.entries[k].expiresAt != 0
    requires LeftAlone(ms[r], ms[n], k)
    ensures forall i :: Newest(ms[r]) <= i < |ms[n].ttlPublished| ==> ms[n].ttlPublished[i] != 0
    decreases n
  {
    hide AllInvariants, Enabled, Apply;
    StillHere(c, ms, r, n, k);
    CountedInMirror(c, ms, n, k);
    if n == r {
    } else {
      TrailGrows(c, ms, r, n - 1);
      assert ms[n - 1 + 1] == ms[n - 1] || Next(c, ms[n - 1], ms[n - 1 + 1]);
      if ms[n] != ms[n - 1] {
        var t, l :| Enabled(c, ms[n - 1], t, l) && ms[n] == Apply(c, ms[n - 1], t, l);
        TraceGrows(c, ms[n - 1], t, l);
        PublishedGrows(c, ms[n - 1], t, l);
      }
      MirrorShows(c, ms, r, n - 1, k);
    }
  }

  lemma CountedInMirror(c: Config, ms: seq<Machine>, n: nat, k: Key)
    requires Trail(c, ms) && n < |ms| && k in ms[n].st.entries && ms[n].st.entries[k].expiresAt != 0
    ensures ms[n].ttlPublished != [] && Last(ms[n].ttlPublished) == ms[n].st.ttlKeys > 0
  {
    TrailInvariants(c, ms, n);
    assert k in TtlKeys(ms[n].st.entries);
  }

  // ---- one sweep of a shard ----

  /**
   A sweep that is under way: it will read no value of the mirror older than
   `since`, and reads no clock before `t0`.
   */
  predicate UnderWay(pc: Pc, since: nat, t0: nat) {
    match pc
    case SweepStart(from) => from >= since
    case SweepLock(now) => now >= t0
    case Sweeping(now, _, _) => now >= t0
    case _ => false
  }

  /** One whole sweep of the shard, by thread `t`, from its beginning at `a` to its end at `b`. */
  ghost predicate Pass(ms: seq<Machine>, t: Tid, a: nat, b: nat, since: nat, t0: nat) {
    && a < b < |ms|
    && t in ms[a].threads && ms[a].threads[t].SweepStart?
    && (forall y :: a <= y < b ==> t in ms[y].threads && UnderWay(ms[y].threads[t], since, t0))
    && t in ms[b].threads && (ms[b].threads[t].Counting? || ms[b].threads[t].Notifying?)
  }

  /** A sweep under way that has its lock has `k` on its list. */
  predicate Has(pc: Pc, k: Key) {
    match pc
    case SweepStart(_) => true
    case SweepLock(_) => true
    case Sweeping(_, dead, _) => k in dead
    case _ => false
  }

  /** No step of any thread takes an expired entry off a sweep's list but by dropping it. */
  lemma StaysListed(c: Config, m: Machine, u: Tid, l: Label, t: Tid, k: Key, since: nat, t0: nat)
    requires Sound(c, m) && Enabled(c, m, u, l) && t in m.threads
    requires UnderWay(m.threads[t], since, t0) && Has(m.threads[t], k)
    requires k in m.st.entries && m.st.entries[k].IsExpired(t0)
    requires forall i :: since <= i < |m.ttlPublished| ==> m.ttlPublished[i] != 0
    requires LeftAlone(m, Apply(c, m, u, l), k)
    ensures var n := Apply(c, m, u, l); t in n.threads && Has(n.threads[t], k)
  {
    hide Sound, TotalRam, TtlKeys, Update, Drop, Touch, Eviction.CanPick, Counted, CountLookup;
    if u != t {
      OtherLocal(c, m, u, l, t);
    } else if l.DoSweepOne? {
      var n, key := Apply(c, m, u, l), m.threads[t].dead[0];
      assert n.trace == m.trace + [Lost(key, Expired, m.threads[t].now)];
      assert Touches(n.trace[|m.trace|], key);
    }
  }

  lemma {:induction false} ListedThroughout(c: Config, ms: seq<Machine>, r: nat, t: Tid, a: nat, b: nat, n: nat,
                                            t0: nat, k: Key)
    requires Trail(c, ms) && r <= a <= n <= b < |ms|
    requires Pass(ms, t, a, b, Newest(ms[r]), t0)
    requires k in ms[r].st.entries && ms[r].st.entries[k].IsExpired(t0) && LeftAlone(ms[r], ms[b], k)
    ensures t in ms[n].threads && Has(ms[n].threads[t], k)
    decreases n
  {
    hide AllInvariants, Enabled, Apply, Sound;
    if n == a {
    } else {
      ListedThroughout(c, ms, r, t, a, b, n - 1, t0, k);
      assert ms[n - 1 + 1] == ms[n - 1] || Next(c, ms[n - 1], ms[n - 1 + 1]);
      if ms[n] != ms[n - 1] {
        var u, l :| Enabled(c, ms[n - 1], u, l) && ms[n] == Apply(c, ms[n - 1], u, l);
        TrailGrows(c, ms, n - 1, n);
        TrailGrows(c, ms, r, n - 1);
        TrailGrows(c, ms, n, b);
        StillHere(c, ms, r, n - 1, k);
        MirrorShows(c, ms, r, n - 1, k);
        SoundAlong(c, ms, n - 1);
        StaysListed(c, ms[n - 1], u, l, t, k, Newest(ms[r]), t0);
      }
    }
  }

  lemma SoundAlong(c: Config, ms: seq<Machine>, n: nat)
    requires Trail(c, ms) && n < |ms|
    ensures Sound(c, ms[n])
  {
    hide Trail;
    TrailInvariants(c, ms, n);
    assert AllInvariants(c, ms[n]);
  }

  /**
   A sweep that begins after an entry has expired, and reads no mirror value from
   before then, does not end before that entry has been dropped or rewritten,
   whether it skips the shard or not and whatever else goes on meanwhile.
   */
  lemma SweepReclaims(c: Config, ms: seq<Machine>, r: nat, t: Tid, a: nat, b: nat, t0: nat, k: Key)
    requires Trail(c, ms) && r <= a < |ms|
    requires Pass(ms, t, a, b, Newest(ms[r]), t0)
    requires k in ms[r].st.entries && ms[r].st.entries[k].IsExpired(t0)
    ensures exists x :: |ms[r].trace| <= x < |ms[b].trace| && Touches(ms[b].trace[x], k)
  {
    if LeftAlone(ms[r], ms[b], k) {
      ListedThroughout(c, ms, r, t, a, b, b, t0, k);
    }
  }

  // ---- a rotation over the engine ----

  /** One shard through a run of the engine. */
  function Along(es: seq<Cluster.Engine>, i: nat): (ms: seq<Machine>)
    requires forall y :: 0 <= y < |es| ==> i < |es[y]|
    ensures |ms| == |es| && forall y :: 0 <= y < |es| ==> ms[y] == es[y][i]
  {
    seq(|es|, y requires 0 <= y < |es| => es[y][i])
  }

  lemma AlongIsTrail(o: Cluster.Options, hash: Key -> nat, es: seq<Cluster.Engine>, i: nat)
    requires Cluster.EngineBehavior(o, hash, es) && i < Cluster.Shards(o)
    ensures forall y :: 0 <= y < |es| ==> |es[y]| == Cluster.Shards(o)
    ensures Trail(Cluster.ShardConfig(o), Along(es, i))
  {
    hide AllInvariants, Enabled, Apply, Cluster.BeginsAt, Cluster.InTurn, Cluster.Shards, Cluster.ShardConfig;
    forall y | 0 <= y < |es|
      ensures |es[y]| == Cluster.Shards(o)
    {
      Cluster.EngineHolds(o, hash, es, y);
    }
    Cluster.EngineHolds(o, hash, es, 0);
    Cluster.SampleAtLeastOne(o);
    var c, ms := Cluster.ShardConfig(o), Along(es, i);
    forall y | 0 <= y < |ms| - 1
      ensures ms[y + 1] == ms[y] || Next(c, ms[y], ms[y + 1])
    {
      assert Cluster.EngineNext(c, hash, es[y], es[y + 1]);
      var j: nat, t: Tid, l :| Cluster.ThreadStep(c, hash, es[y], es[y + 1], j, t, l);
    }
  }

  /** Some thread swept shard `i` between two states, reading nothing of the mirror older than the first. */
  ghost predicate Swept(es: seq<Cluster.Engine>, i: nat, x: nat, y: nat, t0: nat)
    requires forall z :: 0 <= z < |es| ==> i < |es[z]|
    requires x < |es|
  {
    exists t: Tid, a: nat, b: nat :: x <= a && b <= y && Pass(Along(es, i), t, a, b, Newest(es[x][i]), t0)
  }

  /** The sweeps of one rotation: every shard its ticks visit is swept between the two states. */
  ghost predicate Rotates(n: nat, es: seq<Cluster.Engine>, x: nat, y: nat, start: nat, t0: nat)
    requires n > 0 && x < |es| && forall z :: 0 <= z < |es| ==> |es[z]| == n
  {
    forall tick, j :: 0 <= tick < Rotation(n) && 0 <= j < PerTick(n)
                      ==> Swept(es, Visited(CursorAt(start, tick, n), j, n), x, y, t0)
  }

  /**
   A rotation of the background sweep, from wherever its cursor stands and among
   any other operations, reclaims every entry of every shard that had expired when
   it began: each has been dropped or rewritten when it ends.
   */
  lemma EngineRotationReclaims(o: Cluster.Options, hash: Key -> nat, es: seq<Cluster.Engine>, x: nat, y: nat,
                               start: nat, t0: nat, i: nat, k: Key)
    requires Cluster.EngineBehavior(o, hash, es) && x <= y < |es| && i < Cluster.Shards(o)
    requires forall z :: 0 <= z < |es| ==> |es[z]| == Cluster.Shards(o)
    requires Rotates(Cluster.Shards(o), es, x, y, start, t0)
    requires k in es[x][i].st.entries && es[x][i].st.entries[k].IsExpired(t0)
    ensures exists z :: |es[x][i].trace| <= z < |es[y][i].trace| && Touches(es[y][i].trace[z], k)
  {
    hide Cluster.EngineBehavior, Cluster.ShardConfig, Visited, CursorAt, PerTick, Turn, Place, Trail, Pass;
    var n := Cluster.Shards(o);
    Sizing.ShardCountSafe(o.capacityBytes, o.cores);
    TurnInRotation(start, n, i);
    RotationVisitsOnce(start, n, i, Turn(start, n, i), Place(start, n, i));
    assert Swept(es, i, x, y, t0);
    hide Cluster.Shards, Rotates;
    AlongIsTrail(o, hash, es, i);
    var c, ms := Cluster.ShardConfig(o), Along(es, i);
    var t: Tid, a: nat, b: nat :| x <= a && b <= y && Pass(ms, t, a, b, Newest(es[x][i]), t0);
    Ordered(ms, t, a, b, Newest(es[x][i]), t0);
    SweepReclaims(c, ms, x, t, a, b, t0, k);
    TrailGrows(c, ms, b, y);
    var z :| |ms[x].trace| <= z < |ms[b].trace| && Touches(ms[b].trace[z], k);
    assert ms[y].trace[z] == ms[b].trace[z];
  }

  lemma Ordered(ms: seq<Machine>, t: Tid, a: nat, b: nat, since: nat, t0: nat)
    requires Pass(ms, t, a, b, since, t0)
    ensures a < b < |ms|
  {
  }
}
