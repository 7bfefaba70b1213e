/**
 Runs of the whole engine, one operation at a time: operations on single shards,
 and ticks of the background sweep, each visiting the next few shards.
 */
module EngineRuns {
  import opened Arithmetic
  import opened Entries
  import opened ShardSpec
  import opened ShardRuns
  import Eviction
  import Sizing

  /** The sweep cursor is a machine word and wraps. */
  const WORD: nat := 0x1_0000_0000_0000_0000

  const SWEEP_SHARD_DIVISOR: nat := 8

  datatype EngineState = EngineState(shards: seq<State>, cursor: nat)

  datatype EngineOp =
    | On(shard: nat, op: Op)
    | Tick(count: nat, nows: seq<nat>, removed: seq<seq<Removal>>)

  /** The shard visited `i` places after the cursor stood at `start`. */
  function Visited(start: nat, i: nat, n: nat): (idx: nat)
    requires n > 0
    ensures idx < n
  {
    (start + i) % WORD % n
  }

  function Advance(cursor: nat, count: nat): nat {
    (cursor + count) % WORD
  }

  /** How many shards one background tick visits. */
  function PerTick(n: nat): (per: nat)
    ensures per > 0
  {
    Max(n / SWEEP_SHARD_DIVISOR, 1)
  }

  ghost predicate TickStep(capacity: nat, sample: nat, e: EngineState, count: nat,
                           nows: seq<nat>, removed: seq<seq<Removal>>, f: EngineState)
  {
    var n := |e.shards|;
    && n > 0 && |f.shards| == n && f.cursor == Advance(e.cursor, count)
    && |nows| == |removed| == Min(count, n)
    && (forall i :: 0 <= i < |nows| ==>
          var idx := Visited(e.cursor, i, n);
          Step(capacity, sample, e.shards[idx], Sweep(nows[i], removed[i]), f.shards[idx]))
    && (forall idx :: 0 <= idx < n && (forall i :: 0 <= i < |nows| ==> Visited(e.cursor, i, n) != idx)
                      ==> f.shards[idx] == e.shards[idx])
  }

  ghost predicate EngineStep(capacity: nat, sample: nat, e: EngineState, op: EngineOp, f: EngineState) {
    match op
    case On(idx, o) =>
      && idx < |e.shards| == |f.shards| && f == e.(shards := e.shards[idx := f.shards[idx]])
      && Step(capacity, sample, e.shards[idx], o, f.shards[idx])
    case Tick(count, nows, removed) => TickStep(capacity, sample, e, count, nows, removed, f)
  }

  ghost predicate EngineRun(capacity: nat, sample: nat, es: seq<EngineState>, ops: seq<EngineOp>) {
    && |es| == |ops| + 1
    && forall j :: 0 <= j < |ops| ==> EngineStep(capacity, sample, es[j], ops[j], es[j + 1])
  }

  ghost predicate Healthy(capacity: nat, e: EngineState) {
    forall i :: 0 <= i < |e.shards| ==> Inv(e.shards[i]) && e.shards[i].bytes <= capacity
  }

  lemma HealthyStep(capacity: nat, sample: nat, e: EngineState, op: EngineOp, f: EngineState)
    requires Healthy(capacity, e) && EngineStep(capacity, sample, e, op, f)
    ensures Healthy(capacity, f) && |f.shards| == |e.shards|
  {
    hide Step, Inv, Visited;
    forall idx | 0 <= idx < |f.shards|
      ensures Inv(f.shards[idx]) && f.shards[idx].bytes <= capacity
    {
      if op.On? {
        if idx == op.shard {
          StepKeeps(capacity, sample, e.shards[idx], op.op, f.shards[idx]);
        }
      } else if i :| 0 <= i < |op.nows| && Visited(e.cursor, i, |e.shards|) == idx {
        StepKeeps(capacity, sample, e.shards[idx], Sweep(op.nows[i], op.removed[i]), f.shards[idx]);
      }
    }
  }

  // ---- a rotation visits every shard once ----

  /** The word size is a multiple of the shard count, so the cursor's wrap does not disturb the order. */
  lemma WrapHarmless(x: nat, n: nat)
    requires n > 0 && WORD % n == 0
    ensures x % WORD % n == x % n
  {
    var q, y, w := x / WORD, x % WORD, WORD / n;
    assert WORD == w * n;
    assert x == q * WORD + y;
    Regroup(q, w, n);
    Distribute(q * w, y / n, n);
    ModUnique(x, n, q * w + y / n, y % n);
  }

  lemma Regroup(a: nat, b: nat, c: nat)
    ensures a * (b * c) == (a * b) * c
  {
  }

  /** How many places after the cursor a shard comes. */
  function Offset(cursor: nat, n: nat, idx: nat): (x: int)
    requires n > 0 && idx < n
    ensures 0 <= x < n
  {
    if idx >= cursor % n then idx - cursor % n else idx + n - cursor % n
  }

  lemma OffsetExactly(cursor: nat, n: nat, idx: nat, x: nat)
    requires n > 0 && idx < n && x < n
    ensures (cursor + x) % n == idx <==> x == Offset(cursor, n, idx)
  {
    var q, r := cursor / n, cursor % n;
    assert cursor == q * n + r;
    if r + x < n {
      ModUnique(cursor + x, n, q, r + x);
    } else {
      Distribute(q, 1, n);
      ModUnique(cursor + x, n, q + 1, r + x - n);
    }
  }

  /** The shard counts the engine can have. */
  predicate ShardCountOk(n: nat) {
    Sizing.IsPow2(n) && 4 <= n <= 512
  }

  lemma ShardCounts(n: nat)
    requires ShardCountOk(n)
    ensures n in {4, 8, 16, 32, 64, 128, 256, 512}
  {
    Halves(n, 512);
  }

  /** Powers of two up to a bound, by halving the bound. */
  lemma {:induction false} Halves(n: nat, bound: nat)
    requires Sizing.IsPow2(n) && 4 <= n <= bound && bound in {4, 8, 16, 32, 64, 128, 256, 512}
    ensures n in {4, 8, 16, 32, 64, 128, 256, 512}
    decreases bound
  {
    if n == bound {
    } else {
      Pow2Literals();
      Sizing.Pow2Gap(n, bound);
      Halves(n, bound / 2);
    }
  }

  lemma Pow2Literals()
    ensures Sizing.IsPow2(4) && Sizing.IsPow2(8) && Sizing.IsPow2(16) && Sizing.IsPow2(32)
    ensures Sizing.IsPow2(64) && Sizing.IsPow2(128) && Sizing.IsPow2(256) && Sizing.IsPow2(512)
  {
  }

  lemma TicksExact(n: nat)
    requires ShardCountOk(n)
    ensures n / PerTick(n) * PerTick(n) == n && WORD % n == 0 && PerTick(n) <= n
  {
    ShardCounts(n);
  }

  lemma WordDivides(n: nat)
    requires ShardCountOk(n)
    ensures WORD % n == 0
  {
    TicksExact(n);
  }

  lemma WrapTwice(a: nat, i: nat)
    ensures (a % WORD + i) % WORD == (a + i) % WORD
  {
  }

  /** Where the cursor stands after some ticks, and which shard a tick visits, disregarding the wrap. */
  lemma VisitedExactly(start: nat, done: nat, i: nat, n: nat, idx: nat)
    requires n > 0 && WORD % n == 0 && idx < n && done + i < n
    ensures Visited((start + done) % WORD, i, n) == idx <==> done + i == Offset(start, n, idx)
  {
    hide Offset;
    WrapTwice(start + done, i);
    WrapHarmless(start + done + i, n);
    OffsetExactly(start, n, idx, done + i);
  }

  /** Which shard a tick visits at which place. */
  lemma VisitedFrom(start: nat, i: nat, n: nat, idx: nat)
    requires ShardCountOk(n) && start < WORD && i < n && idx < n
    ensures Visited(start, i, n) == idx <==> i == Offset(start, n, idx)
  {
    hide ShardCountOk, Offset;
    WordDivides(n);
    Unwrapped(start);
    hide Visited;
    VisitedExactly(start, 0, i, n, idx);
  }

  lemma Unwrapped(start: nat)
    requires start < WORD
    ensures (start + 0) % WORD == start
  {
  }

  lemma PlaceExactly(off: nat, per: nat, tick: nat, i: nat)
    requires i < per
    ensures off == tick * per + i <==> tick == off / per && i == off % per
  {
    if off == tick * per + i {
      ModUnique(off, per, tick, i);
    }
  }

  /** Where the cursor stands after some ticks. */
  function CursorAt(start: nat, tick: nat, n: nat): nat {
    (start + tick * PerTick(n)) % WORD
  }

  lemma CursorStep(start: nat, tick: nat, n: nat)
    ensures CursorAt(start, tick + 1, n) == Advance(CursorAt(start, tick, n), PerTick(n))
    ensures start < WORD ==> CursorAt(start, 0, n) == start
  {
    Distribute(tick, 1, PerTick(n));
    WrapTwice(start + tick * PerTick(n), PerTick(n));
  }

  /** Which tick of a rotation visits a shard, and at which place in it. */
  function Turn(start: nat, n: nat, idx: nat): nat
    requires n > 0 && idx < n
  {
    Offset(start, n, idx) / PerTick(n)
  }

  function Place(start: nat, n: nat, idx: nat): (i: nat)
    requires n > 0 && idx < n
    ensures i < PerTick(n)
  {
    Offset(start, n, idx) % PerTick(n)
  }

  /** Ticks in a rotation. */
  function Rotation(n: nat): nat {
    n / PerTick(n)
  }

  /**
   Any `n / PerTick(n)` consecutive ticks visit each shard exactly once, from
   wherever the cursor stands, even as it wraps at the word size.
   */
  lemma RotationVisitsOnce(start: nat, n: nat, idx: nat, tick: nat, i: nat)
    requires ShardCountOk(n) && idx < n && tick < Rotation(n) && i < PerTick(n)
    ensures Visited(CursorAt(start, tick, n), i, n) == idx <==> tick == Turn(start, n, idx) && i == Place(start, n, idx)
  {
    TicksExact(n);
    hide PerTick, Visited, Offset, ShardCountOk;
    var per, off := PerTick(n), Offset(start, n, idx);
    TickFits(tick, n / per, per, i);
    PlaceExactly(off, per, tick, i);
    VisitedExactly(start, tick * per, i, n, idx);
  }

  /** A rotation is eight ticks, or one for each shard where there are fewer than eight. */
  lemma RotationLength(n: nat)
    requires ShardCountOk(n)
    ensures Rotation(n) == Min(n, 8)
  {
    EightsOrFour(n);
    hide ShardCountOk;
    if n >= 8 {
      ModUnique(n, n / 8, 8, 0);
    }
  }

  lemma EightsOrFour(n: nat)
    requires ShardCountOk(n)
    ensures n == 4 || (n >= 8 && n % 8 == 0)
  {
    ShardCounts(n);
  }

  /**
   With an engine's shard count and budget, an insert removes nothing exactly
   when what its shard then holds is within an equal part of the capacity.
   */
  lemma InsertWithinShare(capacityBytes: nat, cores: nat, sample: nat, s: State, k: Key, v: Value, e: nat, now: nat,
                          removed: seq<Removal>)
    requires var n := Sizing.ShardCount(capacityBytes, cores);
             n > 0 && Inv(s)
             && Eviction.Evicts(Stored(s, k, v, e), Sizing.PerShard(capacityBytes, n), sample, now, removed)
    ensures var n := Sizing.ShardCount(capacityBytes, cores);
            var after := s.bytes + |k| + |v| + 96
                         - if k in s.entries then |k| + |s.entries[k].value| + 96 else 0;
            removed == [] <==> n * after <= capacityBytes
  {
    hide Eviction.Evicts, Sizing.ShardCount, Sizing.PerShard, Inv;
    var n := Sizing.ShardCount(capacityBytes, cores);
    InsertEvictsExactly(Sizing.PerShard(capacityBytes, n), sample, s, k, v, e, now, removed);
    InsertChargesSome(s, k, v, e);
    Sizing.FitsShardExactly(capacityBytes, n, Stored(s, k, v, e).bytes);
  }

  lemma InsertChargesSome(s: State, k: Key, v: Value, e: nat)
    requires Inv(s)
    ensures Stored(s, k, v, e).bytes ==
              s.bytes + |k| + |v| + 96 - if k in s.entries then |k| + |s.entries[k].value| + 96 else 0
    ensures Stored(s, k, v, e).bytes >= 96
  {
    UpdateKeeps(ShardSpec.Tick(s), k, v, e, s.clock);
  }

  lemma TurnInRotation(start: nat, n: nat, idx: nat)
    requires ShardCountOk(n) && idx < n
    ensures Turn(start, n, idx) < Rotation(n) && PerTick(n) <= n
  {
    TicksExact(n);
    hide PerTick, Offset, ShardCountOk;
    QuotientBelow(Offset(start, n, idx), n / PerTick(n), PerTick(n));
  }

  lemma TickFits(tick: nat, ticks: nat, per: nat, i: nat)
    requires tick < ticks && i < per
    ensures tick * per + i < ticks * per
  {
    TimesMonotone(tick + 1, ticks, per);
    Distribute(tick, 1, per);
  }

  lemma QuotientBelow(off: nat, ticks: nat, per: nat)
    requires per > 0 && off < ticks * per
    ensures off / per < ticks
  {
    assert off == off / per * per + off % per;
    TimesMonotone(ticks, off / per, per);
  }

  // ---- a rotation reclaims everything that had expired ----

  function Ticks(ops: seq<EngineOp>, j: nat): nat
    requires j <= |ops|
  {
    if j == 0 then 0 else Ticks(ops, j - 1) + if ops[j - 1].Tick? then 1 else 0
  }

  /** Ticks of the background sweep, none of which reads a clock before `t0`. */
  predicate Maintenance(n: nat, t0: nat, op: EngineOp) {
    op.Tick? ==> op.count == PerTick(n) && forall i :: 0 <= i < |op.nows| ==> op.nows[i] >= t0
  }

  predicate Rewrites(op: EngineOp, idx: nat, k: Key) {
    op.On? && op.shard == idx && op.op.Insert? && op.op.key == k
  }

  /** An operation that does not write `k` leaves its expiry alone or drops it. */
  lemma NotWritten(capacity: nat, sample: nat, s: State, op: Op, t: State, k: Key)
    requires Step(capacity, sample, s, op, t) && !(op.Insert? && op.key == k)
    ensures k in t.entries ==> k in s.entries && t.entries[k].expiresAt == s.entries[k].expiresAt
  {
    hide Removable, Eviction.Rounds, DropAll, Count, TotalRam;
  }

  lemma SweptAway(capacity: nat, sample: nat, s: State, now: nat, removed: seq<Removal>, t: State, k: Key)
    requires Inv(s) && Step(capacity, sample, s, Sweep(now, removed), t)
    requires k in s.entries ==> s.entries[k].IsExpired(now)
    ensures k !in t.entries
  {
    SweepComplete(s, now, removed);
  }

  lemma {:induction false} CursorAfter(capacity: nat, sample: nat, es: seq<EngineState>, ops: seq<EngineOp>,
                                       j: nat, t0: nat)
    requires EngineRun(capacity, sample, es, ops) && j <= |ops|
    requires ShardCountOk(|es[0].shards|) && es[0].cursor < WORD && Healthy(capacity, es[0])
    requires forall x :: 0 <= x < j ==> Maintenance(|es[0].shards|, t0, ops[x])
    ensures |es[j].shards| == |es[0].shards| && Healthy(capacity, es[j])
    ensures es[j].cursor == CursorAt(es[0].cursor, Ticks(ops, j), |es[0].shards|)
  {
    hide Step, Inv, Visited, PerTick, ShardCountOk, CursorAt, Advance;
    CursorStep(es[0].cursor, if j > 0 then Ticks(ops, j - 1) else 0, |es[0].shards|);
    if j == 0 {
    } else {
      CursorAfter(capacity, sample, es, ops, j - 1, t0);
      assert EngineStep(capacity, sample, es[j - 1], ops[j - 1], es[j - 1 + 1]);
      HealthyStep(capacity, sample, es[j - 1], ops[j - 1], es[j]);
    }
  }

  /** While a stale entry is still there, the tick that visits its shard is still to come. */
  lemma {:induction false} StaleWaits(capacity: nat, sample: nat, es: seq<EngineState>, ops: seq<EngineOp>, j: nat,
                                      t0: nat, idx: nat, k: Key, expiresAt: nat)
    requires EngineRun(capacity, sample, es, ops) && j <= |ops|
    requires ShardCountOk(|es[0].shards|) && es[0].cursor < WORD && Healthy(capacity, es[0])
    requires forall x :: 0 <= x < j ==> Maintenance(|es[0].shards|, t0, ops[x]) && !Rewrites(ops[x], idx, k)
    requires idx < |es[0].shards| && 0 < expiresAt <= t0
    requires k in es[0].shards[idx].entries ==> es[0].shards[idx].entries[k].expiresAt == expiresAt
    ensures |es[j].shards| == |es[0].shards|
    ensures k in es[j].shards[idx].entries ==>
              && es[j].shards[idx].entries[k].expiresAt == expiresAt
              && Ticks(ops, j) <= Turn(es[0].cursor, |es[0].shards|, idx)
  {
    hide Step, Inv, Visited, PerTick, ShardCountOk, Turn, CursorAt;
    CursorAfter(capacity, sample, es, ops, j, t0);
    if j == 0 {
    } else {
      StaleWaits(capacity, sample, es, ops, j - 1, t0, idx, k, expiresAt);
      CursorAfter(capacity, sample, es, ops, j - 1, t0);
      assert EngineStep(capacity, sample, es[j - 1], ops[j - 1], es[j - 1 + 1]);
      var e, op, f := es[j - 1], ops[j - 1], es[j];
      if op.On? {
        if op.shard == idx {
          NotWritten(capacity, sample, e.shards[idx], op.op, f.shards[idx], k);
        }
      } else {
        StaleTick(capacity, sample, e, op, f, es[0].cursor, Ticks(ops, j - 1), t0, idx, k, expiresAt);
      }
    }
  }

  lemma StaleTick(capacity: nat, sample: nat, e: EngineState, op: EngineOp, f: EngineState,
                  start: nat, tick: nat, t0: nat, idx: nat, k: Key, expiresAt: nat)
    requires ShardCountOk(|e.shards|) && Healthy(capacity, e) && op.Tick?
    requires EngineStep(capacity, sample, e, op, f) && Maintenance(|e.shards|, t0, op)
    requires e.cursor == CursorAt(start, tick, |e.shards|)
    requires idx < |e.shards| && 0 < expiresAt <= t0
    requires k in e.shards[idx].entries ==>
               e.shards[idx].entries[k].expiresAt == expiresAt && tick <= Turn(start, |e.shards|, idx)
    ensures k in f.shards[idx].entries ==>
              f.shards[idx].entries[k].expiresAt == expiresAt && tick + 1 <= Turn(start, |e.shards|, idx)
  {
    hide Step, Inv, Visited, PerTick, ShardCountOk, Turn, Place, CursorAt;
    var n := |e.shards|;
    TurnInRotation(start, n, idx);
    if k in e.shards[idx].entries {
      if tick == Turn(start, n, idx) {
        var i := Place(start, n, idx);
        RotationVisitsOnce(start, n, idx, tick, i);
        SweptAway(capacity, sample, e.shards[idx], op.nows[i], op.removed[i], f.shards[idx], k);
      } else {
        NotVisited(n, idx, start, tick);
      }
    } else if i :| 0 <= i < |op.nows| && Visited(e.cursor, i, n) == idx {
      NotWritten(capacity, sample, e.shards[idx], Sweep(op.nows[i], op.removed[i]), f.shards[idx], k);
    }
  }

  lemma NotVisited(n: nat, idx: nat, start: nat, tick: nat)
    requires ShardCountOk(n) && idx < n && tick < Turn(start, n, idx)
    ensures forall i :: 0 <= i < PerTick(n) ==> Visited(CursorAt(start, tick, n), i, n) != idx
  {
    hide Visited, PerTick, ShardCountOk, Turn, Place, CursorAt, Rotation;
    TurnInRotation(start, n, idx);
    forall i | 0 <= i < PerTick(n)
      ensures Visited(CursorAt(start, tick, n), i, n) != idx
    {
      RotationVisitsOnce(start, n, idx, tick, i);
    }
  }

  /**
   Once a rotation's worth of ticks has passed, in between any other operations,
   every entry that had expired when it began is gone or has been written anew.
   */
  lemma RotationReclaims(capacity: nat, sample: nat, es: seq<EngineState>, ops: seq<EngineOp>, j: nat,
                         t0: nat, idx: nat, k: Key)
    requires EngineRun(capacity, sample, es, ops) && j <= |ops|
    requires ShardCountOk(|es[0].shards|) && es[0].cursor < WORD && Healthy(capacity, es[0])
    requires forall x :: 0 <= x < j ==> Maintenance(|es[0].shards|, t0, ops[x])
    requires Ticks(ops, j) >= Rotation(|es[0].shards|)
    requires idx < |es[0].shards| && k in es[0].shards[idx].entries && es[0].shards[idx].entries[k].IsExpired(t0)
    ensures |es[j].shards| == |es[0].shards|
    ensures k !in es[j].shards[idx].entries || exists x :: 0 <= x < j && Rewrites(ops[x], idx, k)
  {
    hide PerTick, ShardCountOk, Turn, Rotation, Healthy, EngineStep;
    CursorAfter(capacity, sample, es, ops, j, t0);
    if forall x :: 0 <= x < j ==> !Rewrites(ops[x], idx, k) {
      StaleWaits(capacity, sample, es, ops, j, t0, idx, k, es[0].shards[idx].entries[k].expiresAt);
      TurnInRotation(es[0].cursor, |es[0].shards|, idx);
    }
  }
}
