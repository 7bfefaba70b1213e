/**
 One shard under any interleaving of writers, readers, deleters and sweeps.

 A thread is a program counter.  Each step is one lock-free action or one action
 under the shard's lock; an eviction and a sweep hold the lock over many steps,
 during which other threads may still read the lock-free mirrors.  A read of the
 byte mirror may return any value published no earlier than the reader's own
 publish, and a sweep's read of the TTL mirror any value published no earlier
 than the last one its thread has seen, whichever that is.
 Clock readings, table order and sampling windows are left open.
 */
module Interleaving {
  import opened Bytes
  import opened Entries
  import opened ShardSpec
  import opened Eviction
  import opened History

  type Tid = nat

  datatype Config = Config(capacity: nat, sample: nat)

  datatype Pc =
    | InsertStart(key: Key, value: Value, expiresAt: nat)
    | InsertStamped(key: Key, value: Value, expiresAt: nat, stamp: nat)
    | HintRead(added: nat, pub: nat)
    | EvictLock(added: nat, pub: nat)
    | Evicting(added: nat, pub: nat, now: nat, rounds: int, removed: seq<Removal>)
    | LookupStart(key: Key, now: nat, began: nat)
    | LookupRetry(key: Key, now: nat, began: nat)
    | LookupDone(key: Key, now: nat, began: nat, found: Found, at: nat)
    | DeleteStart(key: Key)
    | SweepStart(since: nat)
    | SweepLock(now: nat)
    | Sweeping(now: nat, dead: seq<Key>, removed: seq<Removal>)
    | Counting(removed: seq<Removal>)
    | Notifying(removed: seq<Removal>)
  {
    predicate Starting() {
      InsertStart? || LookupStart? || DeleteStart? || SweepStart?
    }

    /** Holds the shard's write lock from one step to the next. */
    predicate Holder() {
      Evicting? || Sweeping?
    }

    /** An insert that has stored its entry and not finished evicting. */
    predicate InFlight() {
      HintRead? || EvictLock? || Evicting?
    }
  }

  /**
   The shared shard, the threads, and a history nothing reads back:
   `published` and `ttlPublished` list every value ever stored in the mirrors of
   the two counters, and `trace` every event in the order it was settled.  A lookup remembers how long
   the trace was when it began and where in it its own answer was settled.
   */
  datatype Machine = Machine(
    st: State,
    published: seq<int>,
    ttlPublished: seq<int>,
    lock: Option<Tid>,
    threads: map<Tid, Pc>,
    trace: seq<Event>,
    created: nat,
    deleted: nat,
    removals: seq<Removal>,
    notified: seq<Removal>,
    lostRaces: nat,
    lookups: nat,
    lastInsert: Option<(Tid, nat)>)

  const START := Machine(INIT, [0], [0], None, map[], [], 0, 0, [], [], 0, 0, None)

  function Go(m: Machine, t: Tid, pc: Pc): Machine {
    m.(threads := m.threads[t := pc])
  }

  /** Put a new state in place, publishing both its counters. */
  function Publish(m: Machine, st: State): Machine {
    m.(st := st, published := m.published + [st.bytes], ttlPublished := m.ttlPublished + [st.ttlKeys])
  }

  // ---- the steps ----

  function Stamp(m: Machine, t: Tid, pc: Pc): Machine
    requires pc.InsertStart?
  {
    Go(m.(st := Tick(m.st)), t, InsertStamped(pc.key, pc.value, pc.expiresAt, m.st.clock))
  }

  function Store(m: Machine, t: Tid, pc: Pc): Machine
    requires pc.InsertStamped?
  {
    var n := Publish(m, Update(m.st, pc.key, pc.value, pc.expiresAt, pc.stamp));
    Go(n.(trace := m.trace + [Put(pc.key, pc.value, pc.expiresAt)],
          created := m.created + (if pc.key in m.st.entries then 0 else 1),
          lastInsert := Some((t, |m.published|))),
       t, HintRead(EntryRam(pc.key, pc.value), |m.published|))
  }

  function ReadHint(c: Config, m: Machine, t: Tid, pc: Pc, at: nat): Machine
    requires pc.HintRead? && at < |m.published|
  {
    Go(m, t, if m.published[at] <= c.capacity then Notifying([]) else EvictLock(pc.added, pc.pub))
  }

  function LockToEvict(c: Config, m: Machine, t: Tid, pc: Pc, now: nat): Machine
    requires pc.EvictLock?
  {
    if m.st.bytes <= c.capacity then Go(m, t, Notifying([]))
    else Go(m.(lock := Some(t)), t, Evicting(pc.added, pc.pub, now, |m.st.entries| + c.sample, []))
  }

  /** A holder of the lock takes one entry out. */
  function TakeOut(m: Machine, r: Removal, now: nat): Machine
    requires r.key in m.st.entries
  {
    Publish(m, Drop(m.st, r.key)).(trace := m.trace + [Lost(r.key, r.cause, now)], removals := m.removals + [r])
  }

  function EvictOne(m: Machine, t: Tid, pc: Pc, r: Removal): Machine
    requires pc.Evicting? && r.key in m.st.entries
  {
    Go(TakeOut(m, r, pc.now), t, pc.(rounds := pc.rounds - 1, removed := pc.removed + [r]))
  }

  function Release(m: Machine, t: Tid, pc: Pc): Machine
    requires pc.Holder()
  {
    Go(m.(lock := None), t, Counting(pc.removed))
  }

  function CountUp(m: Machine, t: Tid, pc: Pc): Machine
    requires pc.Counting?
  {
    Go(m.(st := Counted(m.st, pc.removed)), t, Notifying(pc.removed))
  }

  function Notify(m: Machine, t: Tid, pc: Pc): Machine
    requires pc.Notifying? && pc.removed != []
  {
    Go(m.(notified := m.notified + [pc.removed[0]]), t, Notifying(pc.removed[1..]))
  }

  function Finish(m: Machine, t: Tid): Machine {
    m.(threads := m.threads - {t})
  }

  /** The event a lookup's ending is. */
  function Verdict(k: Key, now: nat, found: Found): Event {
    if found.answer.Some? then Hit(k, found.answer.value, now) else Miss(k, now)
  }

  /** A lookup's answer is settled, and will be what it returns. */
  function Answered(m: Machine, t: Tid, pc: Pc, found: Found): Machine
    requires pc.LookupStart? || pc.LookupRetry?
  {
    Go(m.(trace := m.trace + [Verdict(pc.key, pc.now, found)],
          lostRaces := m.lostRaces + if found.late && found.removed == [] then 1 else 0),
       t, LookupDone(pc.key, pc.now, pc.began, found, |m.trace|))
  }

  function Check(m: Machine, t: Tid, pc: Pc): Machine
    requires pc.LookupStart?
  {
    var (st, early) := LookupFast(m.st, pc.key, pc.now);
    if early.None? then Go(m, t, LookupRetry(pc.key, pc.now, pc.began))
    else Answered(m.(st := st), t, pc, early.value)
  }

  function Recheck(m: Machine, t: Tid, pc: Pc): Machine
    requires pc.LookupRetry?
  {
    var (st, found) := LookupSlow(m.st, pc.key, pc.now);
    var n := if found.removed == [] then m.(st := st) else TakeOut(m, found.removed[0], pc.now);
    Answered(n, t, pc, found)
  }

  function CountAnswer(m: Machine, t: Tid, pc: Pc): Machine
    requires pc.LookupDone?
  {
    Go(m.(st := CountLookup(m.st, pc.found)), t, Notifying(pc.found.removed))
  }

  function DeleteKey(m: Machine, t: Tid, pc: Pc): Machine
    requires pc.DeleteStart?
  {
    var present := pc.key in m.st.entries;
    var n := if present then Publish(m, Drop(m.st, pc.key)) else m;
    Go(n.(trace := m.trace + [Del(pc.key, present)], deleted := m.deleted + if present then 1 else 0),
       t, Notifying([]))
  }

  function LockToSweep(m: Machine, t: Tid, pc: Pc, dead: seq<Key>): Machine
    requires pc.SweepLock?
  {
    Go(m.(lock := Some(t)), t, Sweeping(pc.now, dead, []))
  }

  function SweepOne(m: Machine, t: Tid, pc: Pc): Machine
    requires pc.Sweeping? && pc.dead != [] && pc.dead[0] in m.st.entries
  {
    var r := Removal(pc.dead[0], Expired);
    Go(TakeOut(m, r, pc.now), t, pc.(dead := pc.dead[1..], removed := pc.removed + [r]))
  }

  /** `dead` lists the expired entries of the shard, each once. */
  ghost predicate ListsExpired(s: State, now: nat, dead: seq<Key>) {
    && (forall k :: k in dead <==> k in s.entries && s.entries[k].IsExpired(now))
    && forall i, j :: 0 <= i < j < |dead| ==> dead[i] != dead[j]
  }

  datatype Label =
    | DoBegin(pc: Pc)
    | DoStamp
    | DoStore
    | DoReadHint(at: nat)
    | DoLockToEvict(now: nat)
    | DoEvictOne(r: Removal)
    | DoRelease
    | DoCountUp
    | DoNotify
    | DoFinish
    | DoCheck
    | DoRecheck
    | DoCountAnswer
    | DoDelete
    | DoSkipSweep(at: nat)
    | DoReadClock(at: nat, now: nat)
    | DoLockToSweep(dead: seq<Key>)
    | DoSweepOne

  /** Whether thread `t` can take the step. */
  ghost predicate Enabled(c: Config, m: Machine, t: Tid, l: Label) {
    if l.DoBegin? then
      && t !in m.threads && l.pc.Starting()
      && (l.pc.LookupStart? ==> l.pc.began == |m.trace|)
      && (l.pc.SweepStart? ==> l.pc.since < |m.ttlPublished|)
    else
      && t in m.threads
      && var pc := m.threads[t];
         match l
         case DoBegin(_) => false
         case DoStamp => pc.InsertStart?
         case DoStore => pc.InsertStamped? && m.lock == None
         case DoReadHint(at) => pc.HintRead? && pc.pub <= at < |m.published|
         case DoLockToEvict(_) => pc.EvictLock? && m.lock == None
         case DoEvictOne(r) =>
           && pc.Evicting? && m.st.bytes > c.capacity && pc.rounds > 0 && m.st.entries != map[]
           && r.key in m.st.entries && CanPick(m.st.entries, c.sample, pc.now, r)
         case DoRelease =>
           || (pc.Evicting? && (m.st.bytes <= c.capacity || pc.rounds <= 0 || m.st.entries == map[]))
           || (pc.Sweeping? && pc.dead == [])
         case DoCountUp => pc.Counting?
         case DoNotify => pc.Notifying? && pc.removed != []
         case DoFinish => pc == Notifying([])
         case DoCheck => pc.LookupStart? && m.lock == None
         case DoRecheck => pc.LookupRetry? && m.lock == None
         case DoCountAnswer => pc.LookupDone?
         case DoDelete => pc.DeleteStart? && m.lock == None
         case DoSkipSweep(at) => pc.SweepStart? && pc.since <= at < |m.ttlPublished| && m.ttlPublished[at] == 0
         case DoReadClock(at, _) => pc.SweepStart? && pc.since <= at < |m.ttlPublished| && m.ttlPublished[at] != 0
         case DoLockToSweep(dead) => pc.SweepLock? && m.lock == None && ListsExpired(m.st, pc.now, dead)
         case DoSweepOne => pc.Sweeping? && pc.dead != [] && pc.dead[0] in m.st.entries
  }

  /** The machine after the step. */
  function Apply(c: Config, m: Machine, t: Tid, l: Label): Machine
    requires Enabled(c, m, t, l)
  {
    match l
    case DoBegin(pc) => Go(m, t, pc).(lookups := m.lookups + if pc.LookupStart? then 1 else 0)
    case DoStamp => Stamp(m, t, m.threads[t])
    case DoStore => Store(m, t, m.threads[t])
    case DoReadHint(at) => ReadHint(c, m, t, m.threads[t], at)
    case DoLockToEvict(now) => LockToEvict(c, m, t, m.threads[t], now)
    case DoEvictOne(r) => EvictOne(m, t, m.threads[t], r)
    case DoRelease => Release(m, t, m.threads[t])
    case DoCountUp => CountUp(m, t, m.threads[t])
    case DoNotify => Notify(m, t, m.threads[t])
    case DoFinish => Finish(m, t)
    case DoCheck => Check(m, t, m.threads[t])
    case DoRecheck => Recheck(m, t, m.threads[t])
    case DoCountAnswer => CountAnswer(m, t, m.threads[t])
    case DoDelete => DeleteKey(m, t, m.threads[t])
    case DoSkipSweep(_) => Go(m, t, Notifying([]))
    case DoReadClock(_, now) => Go(m, t, SweepLock(now))
    case DoLockToSweep(dead) => LockToSweep(m, t, m.threads[t], dead)
    case DoSweepOne => SweepOne(m, t, m.threads[t])
  }

  ghost predicate Next(c: Config, m: Machine, n: Machine) {
    exists t, l :: Enabled(c, m, t, l) && n == Apply(c, m, t, l)
  }

  /** A run: the machine from its start, one step after another. */
  ghost predicate Behavior(c: Config, ms: seq<Machine>) {
    && ms != [] && ms[0] == START
    && forall i :: 0 <= i < |ms| - 1 ==> Next(c, ms[i], ms[i + 1])
  }
}
