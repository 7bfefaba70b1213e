/** A keyspace: the engine plus the decision which expiry a write gets. */
module Keyspace {
  import opened Arithmetic
  import opened Bytes
  import opened Entries
  import opened ShardRuns
  import opened EngineRuns
  import opened Engine
  import H = History
  import Cluster
  import ClusterHistory

  const U64_MAX: nat := 0xffff_ffff_ffff_ffff
  const U128_MAX: nat := U64_MAX * (U64_MAX + 2)

  /** `u128::saturating_add` */
  function SaturatingAdd128(a: nat, b: nat): nat {
    if a + b <= U128_MAX then a + b else U128_MAX
  }

  /** Milliseconds a write lives: its own time to live, or else the keyspace's. */
  function TtlMillis(ttlSecs: Option<nat>, defaultTtlMs: nat): nat {
    if ttlSecs.Some? then ttlSecs.value * 1000 else defaultTtlMs
  }

  /** The absolute expiry stored with a write; 0 means never. */
  function ExpiresAt(now: nat, ttlSecs: Option<nat>, defaultTtlMs: nat): nat {
    var ttl := TtlMillis(ttlSecs, defaultTtlMs);
    if ttl > 0 then
      var at := SaturatingAdd128(now, ttl);
      if at <= U64_MAX then at else U64_MAX
    else 0
  }

  /** Every number that can reach the computation fits the machine type it is held in. */
  predicate InRange(now: nat, ttlSecs: Option<nat>, defaultTtlMs: nat) {
    && now <= U64_MAX
    && (ttlSecs.Some? ==> ttlSecs.value <= U64_MAX)
    && defaultTtlMs <= U64_MAX * 1000
  }

  /**
   Seconds of the caller's own count a thousandfold in milliseconds; without any
   the keyspace's default counts as it stands.  A positive time to live gives the
   clock plus that, capped at the last representable millisecond and never the
   code for "never"; a zero one, whether the caller's own or the default, gives
   exactly that code.
   */
  lemma ExpiryExactly(now: nat, ttlSecs: Option<nat>, defaultTtlMs: nat)
    requires InRange(now, ttlSecs, defaultTtlMs)
    ensures TtlMillis(ttlSecs, defaultTtlMs) <= U128_MAX
    ensures ExpiresAt(now, ttlSecs, defaultTtlMs) ==
              match ttlSecs
              case Some(s) => if s == 0 then 0 else Min(now + 1000 * s, 0xffff_ffff_ffff_ffff)
              case None => if defaultTtlMs == 0 then 0 else Min(now + defaultTtlMs, 0xffff_ffff_ffff_ffff)
    ensures ExpiresAt(now, ttlSecs, defaultTtlMs) == 0 <==>
              ttlSecs == Some(0) || (ttlSecs == None && defaultTtlMs == 0)
  {
  }

  class Keyspace {
    const engine: CacheEngine
    const defaultTtlMs: nat

    constructor (engine: CacheEngine, defaultTtlSecs: nat)
      ensures this.engine == engine && defaultTtlMs == defaultTtlSecs * 1000
    {
      this.engine := engine;
      defaultTtlMs := defaultTtlSecs * 1000;
    }

    /**
     Write with an optional time to live.  `now` and `evictNow` are the clock
     readings of the write and of its eviction.
     */
    method PutWithTtl(key: Key, value: Value, ttlSecs: Option<nat>, now: nat, evictNow: nat)
      requires engine.Valid() && InRange(now, ttlSecs, defaultTtlMs)
      modifies engine.shards[engine.ShardIndex(key)], engine`log
      ensures engine.Valid() && old(engine.log) <= engine.log
      ensures var expiresAt := match ttlSecs
                case Some(s) => if s == 0 then 0 else Min(now + 1000 * s, 0xffff_ffff_ffff_ffff)
                case None => if defaultTtlMs == 0 then 0 else Min(now + defaultTtlMs, 0xffff_ffff_ffff_ffff);
              EngineStep(engine.capacity, engine.evictSample, old(engine.View()),
                         On(engine.ShardIndex(key),
                            Op.Insert(key, value, expiresAt, evictNow, engine.log[|old(engine.log)|..])),
                         engine.View())
    {
      hide EngineStep, U128_MAX;
      var ttlMs := if ttlSecs.Some? then ttlSecs.value * 1000 else defaultTtlMs;
      var expiresAt := 0;
      if ttlMs > 0 {
        var at := SaturatingAdd128(now, ttlMs);
        expiresAt := if at <= U64_MAX then at else U64_MAX;
      }
      ExpiryExactly(now, ttlSecs, defaultTtlMs);
      assert expiresAt == ExpiresAt(now, ttlSecs, defaultTtlMs);
      engine.Insert(key, value, expiresAt, evictNow);
    }
  }

  // ---- what a time to live promises, over any interleaved history ----

  /**
   A value put at `now` with a positive time to live is not served at a clock
   reading at or past its end: a thousand milliseconds for each second asked for,
   or the default, after the put.
   */
  lemma NeverServedLate(trace: seq<H.Event>, j: nat, n: nat, now: nat, ttlSecs: Option<nat>, defaultTtlMs: nat)
    requires H.Legal(trace) && j < n < |trace| && InRange(now, ttlSecs, defaultTtlMs)
    requires trace[j].Put? && trace[j].expiresAt == ExpiresAt(now, ttlSecs, defaultTtlMs)
    requires trace[n].Hit? && trace[n].key == trace[j].key
    requires forall i :: j < i < n ==> !(trace[i].Put? && trace[i].key == trace[j].key)
    ensures match ttlSecs
            case Some(s) => s > 0 ==> trace[n].now < Min(now + 1000 * s, 0xffff_ffff_ffff_ffff)
            case None => defaultTtlMs > 0 ==> trace[n].now < Min(now + defaultTtlMs, 0xffff_ffff_ffff_ffff)
  {
    hide H.Legal, InRange, ExpiresAt, TtlMillis, U128_MAX;
    ExpiryExactly(now, ttlSecs, defaultTtlMs);
    var x, e := H.HitServesLatestPut(trace, n);
    assert H.Touches(trace[j], trace[n].key);
  }

  /**
   An event that takes a key away for another reason than the passing of the
   expiry it was put with: a delete, an eviction, or an expiry whose own clock
   reading had reached that expiry.
   */
  predicate TakesAway(e: H.Event, k: Key, expiresAt: nat) {
    match e
    case Put(_, _, _) => false
    case Del(x, _) => x == k
    case Lost(x, cause, now) => x == k && (cause == Evicted || (expiresAt != 0 && now >= expiresAt))
    case Hit(_, _, _) => false
    case Miss(_, _) => false
  }

  /**
   Exactly when a value is served.  With no other put of its key since, a get is
   a hit, and on that value, if and only if its own clock has not reached the
   expiry and nothing took the value away: no delete, no eviction, and no
   expiry by a clock that had reached it.  Nothing else in the history matters,
   whatever the clocks of other operations read.
   */
  lemma ServedExactly(trace: seq<H.Event>, j: nat, n: nat)
    requires H.Legal(trace) && j < n < |trace| && trace[j].Put?
    requires (trace[n].Hit? || trace[n].Miss?) && trace[n].key == trace[j].key
    requires forall i :: j < i < n ==> !(trace[i].Put? && trace[i].key == trace[j].key)
    ensures var e := trace[j].expiresAt;
            trace[n].Hit? <==>
              && (e == 0 || trace[n].now < e)
              && forall i :: j < i < n ==> !TakesAway(trace[i], trace[j].key, e)
    ensures trace[n].Hit? ==> trace[n].value == trace[j].value
  {
    var k, e := trace[j].key, trace[j].expiresAt;
    H.LegalPrefix(trace, n);
    if trace[n].Hit? {
      var x, at := H.HitServesLatestPut(trace, n);
      assert H.Touches(trace[j], k) && H.Touches(trace[x], k);
      assert x == j;
      forall i | j < i < n
        ensures !TakesAway(trace[i], k, e)
      {
        assert !H.Touches(trace[i], k);
      }
    } else if forall i :: j < i < n ==> !TakesAway(trace[i], k, e) {
      StillThere(trace, j, n);
    }
  }

  /** What nothing took away and nothing overwrote is still there. */
  lemma {:induction false} StillThere(trace: seq<H.Event>, j: nat, n: nat)
    requires H.Legal(trace) && j < n <= |trace| && trace[j].Put?
    requires forall i :: j < i < n ==>
               && !(trace[i].Put? && trace[i].key == trace[j].key)
               && !TakesAway(trace[i], trace[j].key, trace[j].expiresAt)
    ensures var f := H.Replay(trace[..n]);
            trace[j].key in f && f[trace[j].key] == H.Cell(trace[j].value, trace[j].expiresAt)
  {
    hide H.Legal, H.Replay;
    H.LegalPrefix(trace, n - 1);
    if j == n - 1 {
    } else {
      StillThere(trace, j, n - 1);
    }
  }

  /**
   Both promises hold in every state of every interleaved run of the engine, over
   the one history of all its shards: a put with a positive time to live is
   served exactly until its end, a pinned one for ever, save for a delete, an
   eviction, an expiry by a clock past that end, or another put.
   */
  lemma TtlOverRuns(o: Cluster.Options, hash: Key -> nat, es: seq<Cluster.Engine>, x: nat,
                    j: nat, n: nat, now: nat, ttlSecs: Option<nat>, defaultTtlMs: nat)
    requires Cluster.EngineBehavior(o, hash, es) && x < |es| && InRange(now, ttlSecs, defaultTtlMs)
    requires forall y :: 0 <= y < |es| ==> |es[y]| == |es[0]|
    requires var tr := ClusterHistory.EngineTrace(es, x);
             && j < n < |tr|
             && tr[j].Put? && tr[j].expiresAt == ExpiresAt(now, ttlSecs, defaultTtlMs)
             && (tr[n].Hit? || tr[n].Miss?) && tr[n].key == tr[j].key
             && forall y :: j < y < n ==> !(tr[y].Put? && tr[y].key == tr[j].key)
    ensures var tr := ClusterHistory.EngineTrace(es, x);
            var t := match ttlSecs case Some(s) => 1000 * s case None => defaultTtlMs;
            var end := if t == 0 then 0 else Min(now + t, 0xffff_ffff_ffff_ffff);
            && (tr[n].Hit? <==>
                  && (t > 0 ==> tr[n].now < end)
                  && forall y :: j < y < n ==> !TakesAway(tr[y], tr[j].key, end))
            && (tr[n].Hit? ==> tr[n].value == tr[j].value)
  {
    hide H.Legal, H.Replay, Cluster.EngineBehavior, ClusterHistory.EngineTrace;
    ClusterHistory.EngineAnswersAreFlat(o, hash, es, x);
    ExpiryExactly(now, ttlSecs, defaultTtlMs);
    hide InRange, ExpiresAt, TtlMillis, U128_MAX;
    var tr := ClusterHistory.EngineTrace(es, x);
    ServedExactly(tr, j, n);
  }
}
