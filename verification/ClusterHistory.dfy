/**
 The sharded engine as one flat lossy map: the histories of its shards woven
 into one, in the order their events were settled.
 */
module ClusterHistory {
  import opened Entries
  import opened ShardSpec
  import opened History
  import opened Interleaving
  import opened MachineInvariants
  import opened MachineHistory
  import opened ShardTheorems
  import opened Cluster

  /** What the first `n` shards hold, as one map. */
  ghost function Contents(e: Engine, n: nat): Flat
    requires n <= |e|
  {
    if n == 0 then map[] else Contents(e, n - 1) + Cells(e[n - 1].st.entries)
  }

  /** The events one shard settled between two states. */
  function NewEvents(m: Machine, n: Machine): seq<Event> {
    if m.trace <= n.trace then n.trace[|m.trace|..] else []
  }

  /** The events the first `n` shards settled between two states of the engine. */
  function Settling(e: Engine, f: Engine, n: nat): seq<Event>
    requires n <= |e| && n <= |f|
  {
    if n == 0 then [] else Settling(e, f, n - 1) + NewEvents(e[n - 1], f[n - 1])
  }

  /** Every event of a run up to its state `x`, from all shards, in the order they were settled. */
  function EngineTrace(es: seq<Engine>, x: nat): seq<Event>
    requires x < |es| && forall y :: 0 <= y < |es| ==> |es[y]| == |es[0]|
  {
    if x == 0 then [] else EngineTrace(es, x - 1) + Settling(es[x - 1], es[x], |es[0]|)
  }

  /** The events about keys of one shard. */
  function OfShard(hash: Key -> nat, n: nat, trace: seq<Event>, i: nat): seq<Event>
    requires n > 0
  {
    if trace == [] then []
    else OfShard(hash, n, Init(trace), i) + if ShardOf(hash, n, Last(trace).key) == i then [Last(trace)] else []
  }

  // ---- maps that agree on a key ----

  predicate Agree(f: Flat, g: Flat, k: Key) {
    (k in f <==> k in g) && (k in f ==> f[k] == g[k])
  }

  lemma AgreeAfter(f: Flat, g: Flat, e: Event, k: Key)
    requires Agree(f, g, k)
    ensures Agree(Effect(f, e), Effect(g, e), k)
    ensures e.key == k ==> (Allowed(f, e) <==> Allowed(g, e))
  {
  }

  lemma OthersAgree(f: Flat, e: Event, k: Key)
    requires e.key != k
    ensures Agree(Effect(f, e), f, k)
  {
  }

  lemma AgreeEverywhere(f: Flat, g: Flat)
    requires forall k :: Agree(f, g, k)
    ensures f == g
  {
    assert forall k :: k in f ==> Agree(f, g, k);
    assert forall k :: k in g ==> Agree(f, g, k);
    assert f.Keys == g.Keys;
  }

  // ---- one shard's events, appended to the engine's ----

  predicate AllOf(hash: Key -> nat, n: nat, events: seq<Event>, i: nat)
    requires n > 0
  {
    forall x :: 0 <= x < |events| ==> ShardOf(hash, n, events[x].key) == i
  }

  /**
   Events a shard's own history allows next, the engine's history allows next,
   if the two agree on that shard's keys; and no other key is affected.
   */
  lemma {:induction false} Weave(hash: Key -> nat, n: nat, i: nat,
                                 all: seq<Event>, own: seq<Event>, more: seq<Event>, k: Key)
    requires n > 0 && Legal(all) && Legal(own + more) && AllOf(hash, n, more, i)
    requires forall x :: ShardOf(hash, n, x) == i ==> Agree(Replay(all), Replay(own), x)
    ensures Legal(all + more)
    ensures if ShardOf(hash, n, k) == i then Agree(Replay(all + more), Replay(own + more), k)
            else Agree(Replay(all + more), Replay(all), k)
    decreases |more|
  {
    hide Legal, Replay, ShardOf, Agree, Allowed;
    if more == [] {
      assert all + more == all && own + more == own;
      AgreeSelf(Replay(all), k);
    } else {
      var shorter, e := Init(more), Last(more);
      assert own + more == (own + shorter) + [e] && all + more == (all + shorter) + [e];
      LegalPrefix(own + more, |own + shorter|);
      assert (own + more)[..|own + shorter|] == own + shorter && (own + more)[|own + shorter|] == e;
      assert (own + more)[..|own + shorter| + 1] == own + more;
      Weave(hash, n, i, all, own, shorter, k);
      Weave(hash, n, i, all, own, shorter, e.key);
      AgreeAfter(Replay(all + shorter), Replay(own + shorter), e, e.key);
      Extend(all + shorter, e);
      if ShardOf(hash, n, k) == i {
        AgreeAfter(Replay(all + shorter), Replay(own + shorter), e, k);
      } else {
        OthersAgree(Replay(all + shorter), e, k);
        AgreeTwice(Replay(all + more), Replay(all + shorter), Replay(all), k);
      }
    }
  }

  lemma AgreeSelf(f: Flat, k: Key)
    ensures Agree(f, f, k)
  {
  }

  lemma AgreeTwice(f: Flat, g: Flat, h: Flat, k: Key)
    requires Agree(f, g, k) && Agree(g, h, k)
    ensures Agree(f, h, k) && Agree(g, f, k)
  {
  }

  lemma {:induction false} OfShardAppend(hash: Key -> nat, n: nat, all: seq<Event>, more: seq<Event>, i: nat)
    requires n > 0
    ensures OfShard(hash, n, all + more, i) == OfShard(hash, n, all, i) + OfShard(hash, n, more, i)
    decreases |more|
  {
    hide ShardOf;
    if more == [] {
      assert all + more == all;
    } else {
      assert Init(all + more) == all + Init(more) && Last(all + more) == Last(more);
      OfShardAppend(hash, n, all, Init(more), i);
    }
  }

  lemma {:induction false} OfShardAll(hash: Key -> nat, n: nat, events: seq<Event>, i: nat, h: nat)
    requires n > 0 && AllOf(hash, n, events, i)
    ensures OfShard(hash, n, events, h) == if h == i then events else []
    decreases |events|
  {
    hide ShardOf;
    if events == [] {
    } else {
      assert AllOf(hash, n, Init(events), i);
      OfShardAll(hash, n, Init(events), i, h);
      assert ShardOf(hash, n, Last(events).key) == i;
      assert events == Init(events) + [Last(events)];
    }
  }

  /** Where in the whole a shard's event stands. */
  lemma {:induction false} OfShardAt(hash: Key -> nat, n: nat, all: seq<Event>, i: nat, q: nat) returns (p: nat)
    requires n > 0 && q < |OfShard(hash, n, all, i)|
    ensures p < |all| && all[p] == OfShard(hash, n, all, i)[q]
    ensures |OfShard(hash, n, all[..p], i)| == q
    decreases |all|
  {
    hide ShardOf;
    if q < |OfShard(hash, n, Init(all), i)| {
      p := OfShardAt(hash, n, Init(all), i, q);
      assert Init(all)[..p] == all[..p];
    } else {
      p := |all| - 1;
      assert all[..p] == Init(all);
    }
  }

  // ---- what the shards hold together ----

  /** Each key of a routed engine is under its own shard, or nowhere. */
  ghost predicate KeysRouted(hash: Key -> nat, e: Engine) {
    e != [] && forall i, k :: 0 <= i < |e| && k in e[i].st.entries ==> ShardOf(hash, |e|, k) == i
  }

  lemma {:induction false} ContentsAt(hash: Key -> nat, e: Engine, n: nat, k: Key)
    requires KeysRouted(hash, e) && n <= |e|
    ensures var home := ShardOf(hash, |e|, k);
            if home < n then Agree(Contents(e, n), Cells(e[home].st.entries), k) else k !in Contents(e, n)
  {
    hide ShardOf;
    if n == 0 {
    } else {
      ContentsAt(hash, e, n - 1, k);
    }
  }

  lemma {:induction false} SettlingOne(e: Engine, f: Engine, n: nat, i: nat)
    requires n <= |e| == |f| && i < |e| && f == e[i := f[i]]
    ensures Settling(e, f, n) == if i < n then NewEvents(e[i], f[i]) else []
  {
    if n == 0 {
    } else {
      SettlingOne(e, f, n - 1, i);
    }
  }

  // ---- every run of the engine ----

  lemma SameSize(o: Options, hash: Key -> nat, es: seq<Engine>)
    requires EngineBehavior(o, hash, es)
    ensures forall y :: 0 <= y < |es| ==> |es[y]| == |es[0]| == Shards(o)
  {
    hide EngineBehavior, EngineInvariants;
    forall y | 0 <= y < |es|
      ensures |es[y]| == Shards(o)
    {
      EngineHolds(o, hash, es, y);
    }
  }

  /** The engine's history is legal, describes what it holds, and is woven from those of its shards. */
  ghost predicate Woven(hash: Key -> nat, e: Engine, trace: seq<Event>) {
    && e != [] && Legal(trace) && Replay(trace) == Contents(e, |e|)
    && forall i :: 0 <= i < |e| ==> OfShard(hash, |e|, trace, i) == e[i].trace
  }

  lemma WovenStep(c: Config, hash: Key -> nat, e: Engine, f: Engine, i: nat, t: Tid, l: Label, trace: seq<Event>)
    requires EngineInvariants(c, hash, e) && EngineInvariants(c, hash, f)
    requires ThreadStep(c, hash, e, f, i, t, l) && Woven(hash, e, trace)
    ensures Woven(hash, f, trace + Settling(e, f, |e|))
  {
    hide Legal, Replay, Enabled, Apply, InTurn, BeginsAt, ShardOf, Sound, Bounded, Owned, Notices, Counters, Honest;
    hide Cells, Contents, Settling, OfShard, Agree;
    TraceGrows(c, e[i], t, l);
    SettlingOne(e, f, |e|, i);
    var more := NewEvents(e[i], f[i]);
    assert f[i].trace == e[i].trace + more;
    assert AllInvariants(c, e[i]) && AllInvariants(c, f[i]) && Routed(hash, |e|, f[i], i);
    NewOnesHome(hash, |e|, e[i], f[i], i);
    forall k | ShardOf(hash, |e|, k) == i
      ensures Agree(Replay(trace), Replay(e[i].trace), k)
    {
      ContentsAt(hash, e, |e|, k);
    }
    forall k
      ensures Agree(Replay(trace + more), Contents(f, |f|), k)
    {
      Weave(hash, |e|, i, trace, e[i].trace, more, k);
      WovenAt(c, hash, e, f, i, trace, more, k);
    }
    Weave(hash, |e|, i, trace, e[i].trace, more, []);
    AgreeEverywhere(Replay(trace + more), Contents(f, |f|));
    forall h | 0 <= h < |f|
      ensures OfShard(hash, |f|, trace + more, h) == f[h].trace
    {
      OfShardAppend(hash, |e|, trace, more, h);
      OfShardAll(hash, |e|, more, i, h);
    }
  }

  lemma NewOnesHome(hash: Key -> nat, n: nat, m: Machine, next: Machine, i: nat)
    requires n > 0 && Routed(hash, n, next, i) && m.trace <= next.trace
    ensures AllOf(hash, n, NewEvents(m, next), i)
  {
    hide ShardOf;
  }

  lemma WovenAt(c: Config, hash: Key -> nat, e: Engine, f: Engine, i: nat, trace: seq<Event>, more: seq<Event>, k: Key)
    requires EngineInvariants(c, hash, e) && EngineInvariants(c, hash, f)
    requires |e| == |f| && i < |e| && f == e[i := f[i]] && Replay(trace) == Contents(e, |e|)
    requires f[i].trace == e[i].trace + more
    requires if ShardOf(hash, |e|, k) == i then Agree(Replay(trace + more), Replay(e[i].trace + more), k)
             else Agree(Replay(trace + more), Replay(trace), k)
    ensures Agree(Replay(trace + more), Contents(f, |f|), k)
  {
    hide Legal, Replay, ShardOf, Sound, Bounded, Owned, Notices, Counters, Honest, Cells, Contents;
    ContentsAt(hash, e, |e|, k);
    ContentsAt(hash, f, |f|, k);
    assert AllInvariants(c, f[i]);
  }

  lemma ContentsOfNone(e: Engine, n: nat)
    requires n <= |e| && forall i :: 0 <= i < |e| ==> e[i] == START
    ensures Contents(e, n) == map[]
  {
    if n == 0 {
    } else {
      ContentsOfNone(e, n - 1);
      assert Cells(map[]) == map[];
    }
  }

  /**
   The sharded engine refines one flat lossy map.  In every state of every run,
   all the events so far, from all shards in the order they were settled, are a
   history one such map allows; what the shards hold together is that map; and
   each shard has seen exactly the events about its own keys.
   */
  lemma {:induction false} EngineAnswersAreFlat(o: Options, hash: Key -> nat, es: seq<Engine>, x: nat)
    requires EngineBehavior(o, hash, es) && x < |es|
    ensures forall y :: 0 <= y < |es| ==> |es[y]| == |es[0]| == Shards(o)
    ensures Woven(hash, es[x], EngineTrace(es, x))
  {
    hide EngineInvariants, Woven, ThreadStep, ShardConfig, Shards;
    SameSize(o, hash, es);
    EngineHolds(o, hash, es, x);
    if x == 0 {
      WovenStart(hash, es[0]);
    } else {
      EngineAnswersAreFlat(o, hash, es, x - 1);
      EngineHolds(o, hash, es, x - 1);
      assert EngineNext(ShardConfig(o), hash, es[x - 1], es[x - 1 + 1]);
      var i: nat, t: Tid, l :| ThreadStep(ShardConfig(o), hash, es[x - 1], es[x], i, t, l);
      WovenStep(ShardConfig(o), hash, es[x - 1], es[x], i, t, l, EngineTrace(es, x - 1));
    }
  }

  lemma WovenStart(hash: Key -> nat, e: Engine)
    requires e != [] && forall i :: 0 <= i < |e| ==> e[i] == START
    ensures Woven(hash, e, [])
  {
    ContentsOfNone(e, |e|);
  }

  // ---- answers ----

  /**
   What a get on the engine returns was settled at one place of that one history,
   no earlier than the get began.  A value is that of the latest put of its key
   there, not deleted or dropped since and not expired at the clock the get read;
   nothing means that any such put had expired by that clock.
   */
  lemma EngineGetIsExact(o: Options, hash: Key -> nat, es: seq<Engine>, x: nat, i: nat, t: Tid) returns (p: nat)
    requires EngineBehavior(o, hash, es) && x < |es| && i < |es[x]|
    requires t in es[x][i].threads && es[x][i].threads[t].LookupDone?
    ensures forall y :: 0 <= y < |es| ==> |es[y]| == |es[0]| == Shards(o)
    ensures var pc, tr := es[x][i].threads[t], EngineTrace(es, x);
            && p < |tr| && tr[p] == Verdict(pc.key, pc.now, pc.found)
            && pc.began <= |OfShard(hash, Shards(o), tr[..p], i)|
            && (pc.found.answer.Some? ==>
                  exists j, expiresAt :: LatestPut(tr, p, pc.key, pc.found.answer.value, expiresAt, j)
                                         && (expiresAt == 0 || pc.now < expiresAt))
            && (pc.found.answer.None? ==>
                  forall j, v, expiresAt :: LatestPut(tr, p, pc.key, v, expiresAt, j)
                                            ==> expiresAt != 0 && pc.now >= expiresAt)
  {
    hide Sound, Bounded, Owned, Notices, Counters, Linear, Legal, Replay, EngineBehavior, Shards, OfShard, EngineTrace;
    EngineHolds(o, hash, es, x);
    EngineAnswersAreFlat(o, hash, es, x);
    assert AllInvariants(ShardConfig(o), es[x][i]);
    var pc, tr := es[x][i].threads[t], EngineTrace(es, x);
    assert Settled(es[x][i], pc);
    p := OfShardAt(hash, Shards(o), tr, i, pc.at);
    AnswerIsExact(tr, p, pc.key, pc.now, pc.found);
  }
}
