/**
 One shard's state and what each of its critical sections does to it, written
 with the same arithmetic as the engine: saturating where the engine saturates,
 plain where it subtracts plainly.  The class in Shard.dfy and the interleaved
 machine in Interleaving.dfy are both specified by these functions.
 */
module ShardSpec {
  import opened Bytes
  import opened Entries

  datatype State = State(
    entries: Table,
    bytes: int,
    ttlKeys: int,
    clock: nat,
    hits: nat,
    misses: nat,
    evictions: nat,
    expired: nat)

  const INIT := State(map[], 0, 0, 0, 0, 0, 0, 0)

  /** The counters eviction and the sweep act on agree with the table. */
  ghost predicate Exact(s: State) {
    && s.bytes == TotalRam(s.entries)
    && s.ttlKeys == |TtlKeys(s.entries)|
  }

  /** Access stamps are distinct and already issued. */
  ghost predicate Stamped(s: State) {
    && (forall k :: k in s.entries ==> s.entries[k].lastAccess < s.clock)
    && (forall j, k :: j in s.entries && k in s.entries && j != k
                       ==> s.entries[j].lastAccess != s.entries[k].lastAccess)
  }

  ghost predicate Inv(s: State) {
    Exact(s) && Stamped(s)
  }

  function SaturatingSub(a: int, b: int): int {
    if a >= b then a - b else 0
  }

  /** `saturating_add_signed`, whose upper bound no count of entries reaches. */
  function SaturatingAdd(a: int, delta: int): int {
    if a + delta >= 0 then a + delta else 0
  }

  /** `isize::from(expires_at != 0)` */
  function HasTtl(expiresAt: nat): int {
    if expiresAt != 0 then 1 else 0
  }

  /** `access_clock`: the stamp it returns is the clock before. */
  function Tick(s: State): State {
    s.(clock := s.clock + 1)
  }

  /** The bytes an insert of `k` releases by overwriting. */
  function Freed(s: State, k: Key): nat {
    if k in s.entries then EntryRam(k, s.entries[k].value) else 0
  }

  /** The locked half of an insert, with a stamp taken earlier. */
  function Update(s: State, k: Key, v: Value, expiresAt: nat, stamp: nat): State {
    var delta := HasTtl(expiresAt) - if k in s.entries then HasTtl(s.entries[k].expiresAt) else 0;
    s.(entries := s.entries[k := Entry(v, stamp, expiresAt)],
       bytes := s.bytes + EntryRam(k, v) - Freed(s, k),
       ttlKeys := if delta == 0 then s.ttlKeys else SaturatingAdd(s.ttlKeys, delta))
  }

  /** Refresh a present entry's stamp from the shard clock. */
  function Touch(s: State, k: Key): State
    requires k in s.entries
  {
    s.(entries := s.entries[k := s.entries[k].(lastAccess := s.clock)], clock := s.clock + 1)
  }

  /** Take a present entry out, as a delete, an eviction, an expiry and the sweep all do. */
  function Drop(s: State, k: Key): State
    requires k in s.entries
  {
    s.(entries := s.entries - {k},
       bytes := SaturatingSub(s.bytes, EntryRam(k, s.entries[k].value)),
       ttlKeys := if s.entries[k].expiresAt == 0 then s.ttlKeys else SaturatingAdd(s.ttlKeys, -1))
  }

  /**
   How a lookup ended: its answer, whether it had seen the entry expired first,
   and what it dropped.
   */
  datatype Found = Found(answer: Option<Value>, late: bool, removed: seq<Removal>)

  /** The shared-lock half of a lookup: an ending, or `None` to go on to the write lock. */
  function LookupFast(s: State, k: Key, now: nat): (State, Option<Found>) {
    if k !in s.entries then
      (s, Some(Found(None, false, [])))
    else if !s.entries[k].IsExpired(now) then
      (Touch(s, k), Some(Found(Some(s.entries[k].value), false, [])))
    else
      (s, None)
  }

  /** The write-lock half of a lookup: everything is decided again. */
  function LookupSlow(s: State, k: Key, now: nat): (State, Found) {
    if k in s.entries && !s.entries[k].IsExpired(now) then
      (Touch(s, k), Found(Some(s.entries[k].value), false, []))
    else if k in s.entries then
      (Drop(s, k), Found(None, true, [Removal(k, Expired)]))
    else
      (s, Found(None, true, []))
  }

  /** The counters a lookup bumps once it has let go of the lock. */
  function CountLookup(s: State, found: Found): State {
    if found.answer.Some? then s.(hits := s.hits + 1)
    else s.(expired := s.expired + (if found.late then 1 else 0), misses := s.misses + 1)
  }

  /** A whole lookup with nothing happening between its halves. */
  function Lookup(s: State, k: Key, now: nat): (State, Found) {
    var (t, early) := LookupFast(s, k, now);
    var (u, found) := if early.Some? then (t, early.value) else LookupSlow(t, k, now);
    (CountLookup(u, found), found)
  }

  function Remove(s: State, k: Key): (State, bool) {
    if k in s.entries then (Drop(s, k), true) else (s, false)
  }

  function Init<T>(s: seq<T>): seq<T>
    requires s != []
  {
    s[..|s| - 1]
  }

  function Last<T>(s: seq<T>): T
    requires s != []
  {
    s[|s| - 1]
  }

  /** The keys of a list of removals. */
  function KeySet(removed: seq<Removal>): set<Key> {
    if removed == [] then {} else KeySet(Init(removed)) + {Last(removed).key}
  }

  /** The removals name entries of `s`, none of them twice. */
  predicate Removable(s: State, removed: seq<Removal>) {
    removed == [] ||
    (Removable(s, Init(removed)) && Last(removed).key in s.entries && Last(removed).key !in KeySet(Init(removed)))
  }

  /** Drop the listed entries one after another. */
  function DropAll(s: State, removed: seq<Removal>): (r: State)
    requires Removable(s, removed)
    ensures r.entries == s.entries - KeySet(removed)
    ensures r.clock == s.clock
  {
    if removed == [] then s else Drop(DropAll(s, Init(removed)), Last(removed).key)
  }

  /** How many of the removals have the given cause. */
  function Count(removed: seq<Removal>, cause: Cause): (n: nat)
    ensures n <= |removed|
  {
    if removed == [] then 0
    else Count(Init(removed), cause) + if Last(removed).cause == cause then 1 else 0
  }

  function ExpiredKeys(s: State, now: nat): set<Key> {
    set k | k in s.entries && s.entries[k].IsExpired(now)
  }

  /** One shard of the TTL sweep found these entries expired, in the table's order. */
  predicate IsSweep(s: State, now: nat, removed: seq<Removal>) {
    && Removable(s, removed)
    && (forall r :: r in removed ==> r.cause == Expired)
    && KeySet(removed) == if s.ttlKeys == 0 then {} else ExpiredKeys(s, now)
  }

  /** The counters an eviction or a sweep bumps once it has let go of the lock. */
  function Counted(s: State, removed: seq<Removal>): State {
    s.(evictions := s.evictions + Count(removed, Evicted), expired := s.expired + Count(removed, Expired))
  }

  // ---- every critical section keeps the invariant ----

  lemma UpdateKeeps(s: State, k: Key, v: Value, expiresAt: nat, stamp: nat)
    requires Exact(s)
    ensures Exact(Update(s, k, v, expiresAt, stamp))
    ensures s.bytes + EntryRam(k, v) - Freed(s, k) >= EntryRam(k, v)
    ensures Update(s, k, v, expiresAt, stamp).bytes ==
              s.bytes + |k| + |v| + 96 - if k in s.entries then |k| + |s.entries[k].value| + 96 else 0
  {
    RamPut(s.entries, k, Entry(v, stamp, expiresAt));
    TtlPut(s.entries, k, Entry(v, stamp, expiresAt));
  }

  /** The saturating updates never saturate: what is taken off was there. */
  lemma DropKeeps(s: State, k: Key)
    requires Exact(s) && k in s.entries
    ensures Exact(Drop(s, k))
    ensures Drop(s, k).bytes == s.bytes - (|k| + |s.entries[k].value| + 96)
    ensures Drop(s, k).ttlKeys == s.ttlKeys - HasTtl(s.entries[k].expiresAt)
    ensures Stamped(s) ==> Stamped(Drop(s, k))
  {
    RamWithout(s.entries, k);
    TtlWithout(s.entries, k);
  }

  lemma TouchKeeps(s: State, k: Key)
    requires Exact(s) && k in s.entries
    ensures Exact(Touch(s, k))
    ensures Stamped(s) ==> Stamped(Touch(s, k))
  {
    var e := s.entries[k].(lastAccess := s.clock);
    RamPut(s.entries, k, e);
    TtlPut(s.entries, k, e);
  }

  lemma {:induction false} DropAllKeeps(s: State, removed: seq<Removal>)
    requires Exact(s) && Removable(s, removed)
    ensures Exact(DropAll(s, removed))
    ensures Stamped(s) ==> Stamped(DropAll(s, removed))
    ensures removed != [] ==> DropAll(s, removed).bytes < s.bytes
  {
    if removed == [] {
    } else {
      DropAllKeeps(s, Init(removed));
      DropKeeps(DropAll(s, Init(removed)), Last(removed).key);
    }
  }

  /** An insert with nothing between its stamp and its locked half. */
  lemma InsertKeeps(s: State, k: Key, v: Value, expiresAt: nat)
    requires Inv(s)
    ensures Inv(Update(Tick(s), k, v, expiresAt, s.clock))
  {
    UpdateKeeps(Tick(s), k, v, expiresAt, s.clock);
  }

  lemma LookupKeeps(s: State, k: Key, now: nat)
    requires Inv(s)
    ensures Inv(Lookup(s, k, now).0)
  {
    if k in s.entries {
      TouchKeeps(s, k);
      DropKeeps(s, k);
    }
  }

  lemma RemoveKeeps(s: State, k: Key)
    requires Inv(s)
    ensures Inv(Remove(s, k).0)
  {
    if k in s.entries {
      DropKeeps(s, k);
    }
  }

  lemma EmptyIsFree(s: State)
    requires Exact(s)
    ensures s.entries == map[] ==> s.bytes == 0
  {
  }

  lemma CountedKeeps(s: State, removed: seq<Removal>)
    ensures Exact(s) ==> Exact(Counted(s, removed))
    ensures Stamped(s) ==> Stamped(Counted(s, removed))
  {
  }

  lemma SweepsNothing(s: State, now: nat)
    ensures Removable(s, []) && DropAll(s, []) == s && Counted(s, []) == s
    ensures s.ttlKeys == 0 ==> IsSweep(s, now, [])
  {
  }

  lemma RemovableExtend(s: State, removed: seq<Removal>, r: Removal)
    requires Removable(s, removed) && r.key in s.entries && r.key !in KeySet(removed)
    ensures Removable(s, removed + [r])
    ensures DropAll(s, removed + [r]) == Drop(DropAll(s, removed), r.key)
    ensures KeySet(removed + [r]) == KeySet(removed) + {r.key}
  {
    assert Init(removed + [r]) == removed && Last(removed + [r]) == r;
  }

  lemma CountExtend(removed: seq<Removal>, r: Removal)
    ensures Count(removed + [r], Evicted) == Count(removed, Evicted) + if r.cause == Evicted then 1 else 0
    ensures Count(removed + [r], Expired) == Count(removed, Expired) + if r.cause == Expired then 1 else 0
  {
    assert Init(removed + [r]) == removed && Last(removed + [r]) == r;
  }

  /** The causes of a list of removals, in order. */
  function Causes(removed: seq<Removal>): seq<Cause> {
    if removed == [] then [] else Causes(Init(removed)) + [Last(removed).cause]
  }

  /** To count a cause is to count how often it occurs. */
  lemma {:induction false} CountExactly(removed: seq<Removal>, cause: Cause)
    ensures Count(removed, cause) == multiset(Causes(removed))[cause]
    decreases |removed|
  {
    if removed == [] {
    } else {
      CountExactly(Init(removed), cause);
      assert Count(removed, cause) == Count(Init(removed), cause) + if Last(removed).cause == cause then 1 else 0;
      assert Causes(removed) == Causes(Init(removed)) + [Last(removed).cause];
    }
  }

  lemma {:induction false} CountBoth(removed: seq<Removal>)
    ensures Count(removed, Evicted) + Count(removed, Expired) == |removed|
  {
    if removed == [] {
    } else {
      CountBoth(Init(removed));
    }
  }

  /** The sweep's skip loses nothing: a zero count means no entry can expire. */
  lemma SweepComplete(s: State, now: nat, removed: seq<Removal>)
    requires Exact(s) && IsSweep(s, now, removed)
    ensures KeySet(removed) == ExpiredKeys(s, now)
    ensures forall k :: k in DropAll(s, removed).entries ==> !s.entries[k].IsExpired(now)
  {
    if s.ttlKeys == 0 {
      assert forall k :: k in ExpiredKeys(s, now) ==> k in TtlKeys(s.entries);
    }
  }
}
