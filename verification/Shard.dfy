/** One shard of the cache, run by one thread at a time. */
module Shards {
  import opened Arithmetic
  import opened Bytes
  import opened Entries
  import opened ShardSpec
  import opened Eviction

  class Shard {
    const capacity: nat
    var entries: Table
    var bytes: int
    var ttlKeys: int
    /** Lock-free mirrors of the two counters. */
    var bytesHint: int
    var ttlHint: int
    var clock: nat
    var hits: nat
    var misses: nat
    var evictions: nat
    var expired: nat

    ghost function View(): State
      reads this
    {
      State(entries, bytes, ttlKeys, clock, hits, misses, evictions, expired)
    }

    /** The counters agree with the table, and the mirrors with the counters. */
    ghost predicate Synced()
      reads this
    {
      Exact(View()) && bytesHint == bytes && ttlHint == ttlKeys
    }

    ghost predicate Valid()
      reads this
    {
      Synced() && Stamped(View())
    }

    constructor (capacity: nat)
      ensures Valid() && this.capacity == capacity && View() == INIT
    {
      this.capacity := capacity;
      entries, bytes, ttlKeys, bytesHint, ttlHint := map[], 0, 0, 0, 0;
      clock, hits, misses, evictions, expired := 0, 0, 0, 0, 0;
    }

    /** The only write path for `bytes`. */
    method SetBytes(n: int)
      modifies this`bytes, this`bytesHint
      ensures bytes == n && bytesHint == n
    {
      bytes := n;
      bytesHint := n;
    }

    /** The only write path for `ttlKeys`. */
    method AddTtlKeys(delta: int)
      requires ttlHint == ttlKeys
      modifies this`ttlKeys, this`ttlHint
      ensures ttlKeys == if delta == 0 then old(ttlKeys) else SaturatingAdd(old(ttlKeys), delta)
      ensures ttlHint == ttlKeys
    {
      if delta == 0 {
        return;
      }
      ttlKeys := SaturatingAdd(ttlKeys, delta);
      ttlHint := ttlKeys;
    }

    method AccessClock() returns (stamp: nat)
      modifies this`clock
      ensures stamp == old(clock) && clock == stamp + 1
    {
      stamp := clock;
      clock := clock + 1;
    }

    /** The write-locked half of an insert. */
    method Store(key: Key, value: Value, expiresAt: nat, stamp: nat)
      requires Synced()
      modifies this`entries, this`bytes, this`bytesHint, this`ttlKeys, this`ttlHint
      ensures Synced() && View() == Update(old(View()), key, value, expiresAt, stamp)
      ensures entries == old(entries)[key := Entry(value, stamp, expiresAt)]
      ensures bytes == old(bytes) + |key| + |value| + 96
                       - if key in old(entries) then |key| + |old(entries)[key].value| + 96 else 0
    {
      var added := EntryRam(key, value);
      var ttlDelta := HasTtl(expiresAt);
      var freed := 0;
      if key in entries {
        freed := EntryRam(key, entries[key].value);
        ttlDelta := ttlDelta - HasTtl(entries[key].expiresAt);
      }
      UpdateKeeps(View(), key, value, expiresAt, stamp);
      entries := entries[key := Entry(value, stamp, expiresAt)];
      SetBytes(bytes + added - freed);
      AddTtlKeys(ttlDelta);
    }

    /** Take an entry out of the table and off both counters. */
    method TakeOut(key: Key)
      requires Synced() && key in entries
      modifies this`entries, this`bytes, this`bytesHint, this`ttlKeys, this`ttlHint
      ensures Synced() && View() == Drop(old(View()), key)
    {
      DropKeeps(View(), key);
      var entry := entries[key];
      entries := entries - {key};
      SetBytes(SaturatingSub(bytes, EntryRam(key, entry.value)));
      AddTtlKeys(-HasTtl(entry.expiresAt));
    }

    /** Insert or overwrite, then evict. */
    method Insert(key: Key, value: Value, expiresAt: nat, sample: nat, now: nat) returns (removed: seq<Removal>)
      requires Valid() && sample >= 1
      modifies this
      ensures Valid() && bytes <= capacity
      ensures var stored := Update(Tick(old(View())), key, value, expiresAt, old(clock));
              && Evicts(stored, capacity, sample, now, removed)
              && View() == Counted(DropAll(stored, removed), removed)
    {
      ghost var before := View();
      InsertKeeps(before, key, value, expiresAt);
      var stamp := AccessClock();
      assert View() == Tick(before);
      Store(key, value, expiresAt, stamp);
      ghost var stored := View();
      assert stored == Update(Tick(before), key, value, expiresAt, stamp);
      removed := Evict(sample, now);
      assert Evicts(stored, capacity, sample, now, removed);
      assert View() == Counted(DropAll(stored, removed), removed);
    }

    /** The shared-lock half of a lookup. */
    method LookupShared(key: Key, now: nat) returns (early: Option<Found>)
      requires Valid()
      modifies this
      ensures Valid()
      ensures var (after, e) := LookupFast(old(View()), key, now);
              early == e && View() == if e.Some? then CountLookup(after, e.value) else after
    {
      if key !in entries {
        misses := misses + 1;
        return Some(Found(None, false, []));
      }
      if !entries[key].IsExpired(now) {
        var value := Serve(key);
        return Some(Found(Some(value), false, []));
      }
      return None;
    }

    /** Serve a present entry, stamping it from the shard clock. */
    method Serve(key: Key) returns (value: Value)
      requires Valid() && key in entries
      modifies this`entries, this`clock, this`hits
      ensures Valid() && View() == Touch(old(View()), key).(hits := old(hits) + 1)
      ensures value == old(entries)[key].value
    {
      TouchKeeps(View(), key);
      var stamp := AccessClock();
      entries := entries[key := entries[key].(lastAccess := stamp)];
      value := entries[key].value;
      hits := hits + 1;
    }

    /** The re-check under the write lock, after which anything may be found. */
    method LookupLocked(key: Key, now: nat) returns (found: Found)
      requires Valid()
      modifies this
      ensures Valid()
      ensures var (after, f) := LookupSlow(old(View()), key, now);
              found == f && View() == CountLookup(after, f)
      ensures var live := key in old(entries) && !old(entries)[key].IsExpired(now);
              && found.answer == (if live then Some(old(entries)[key].value) else None)
              && hits == old(hits) + (if live then 1 else 0)
              && misses == old(misses) + (if live then 0 else 1)
              && expired == old(expired) + (if live then 0 else 1)
    {
      if key in entries && !entries[key].IsExpired(now) {
        var value := Serve(key);
        return Found(Some(value), false, []);
      }
      var removed := [];
      if key in entries {
        DropKeeps(View(), key);
        TakeOut(key);
        removed := [Removal(key, Expired)];
      }
      expired := expired + 1;
      misses := misses + 1;
      found := Found(None, true, removed);
    }

    method Get(key: Key, now: nat) returns (found: Found)
      requires Valid()
      modifies this
      ensures Valid() && (View(), found) == Lookup(old(View()), key, now)
    {
      var early := LookupShared(key, now);
      if early.Some? {
        found := early.value;
      } else {
        found := LookupLocked(key, now);
      }
    }

    method Delete(key: Key) returns (found: bool)
      requires Valid()
      modifies this
      ensures Valid() && (View(), found) == Remove(old(View()), key)
    {
      found := key in entries;
      if found {
        DropKeeps(View(), key);
        TakeOut(key);
      }
    }

    /** Evict until the shard is back within its budget. */
    method Evict(sample: nat, now: nat) returns (removed: seq<Removal>)
      requires Valid() && sample >= 1
      modifies this
      ensures Valid() && bytes <= capacity
      ensures Evicts(old(View()), capacity, sample, now, removed)
      ensures View() == Counted(DropAll(old(View()), removed), removed)
    {
      hide Removable, Rounds, DropAll, Count;
      removed := [];
      EvictsNothing(View(), capacity, sample, now);
      if bytesHint <= capacity {
        return;
      }
      if bytes <= capacity {
        return;
      }
      ghost var before := View();
      var evictedNow, expiredNow;
      removed, evictedNow, expiredNow := EvictLocked(sample, now);
      ghost var after := View();
      assert Stamped(after) by {
        DropAllKeeps(before, removed);
      }
      evictions := evictions + evictedNow;
      expired := expired + expiredNow;
      assert View() == Counted(after, removed);
    }

    /** The rounds of one eviction, under the write lock. */
    method EvictLocked(sample: nat, now: nat) returns (removed: seq<Removal>, evictedNow: nat, expiredNow: nat)
      requires Synced() && sample >= 1
      modifies this`entries, this`bytes, this`bytesHint, this`ttlKeys, this`ttlHint
      ensures Synced() && bytes <= capacity
      ensures Evicts(old(View()), capacity, sample, now, removed)
      ensures View() == DropAll(old(View()), removed)
      ensures evictedNow == Count(removed, Evicted) && expiredNow == Count(removed, Expired)
    {
      hide Removable, Rounds, DropAll, Count, Exact, CanPick, PickedAt, Lists, Wrapped;
      ghost var before := View();
      removed, evictedNow, expiredNow := [], 0, 0;
      EvictsNothing(before, capacity, sample, now);
      var rounds := |entries| + sample;
      while bytes > capacity && rounds > 0 && entries != map[]
        invariant Synced()
        invariant Removable(before, removed) && Rounds(before, capacity, sample, now, removed)
        invariant View() == DropAll(before, removed)
        invariant rounds == |entries| + sample
        invariant evictedNow == Count(removed, Evicted) && expiredNow == Count(removed, Expired)
      {
        rounds := rounds - 1;
        var picked, _, _ := SampleOne(sample, now);
        if picked.None? {
          break;
        }
        var r := picked.value;
        RoundsExtend(before, capacity, sample, now, removed, r);
        CountExtend(removed, r);
        TakeOut(r.key);
        removed := removed + [r];
        if r.cause == Expired {
          expiredNow := expiredNow + 1;
        } else {
          evictedNow := evictedNow + 1;
        }
      }
      EmptyIsFree(View());
    }

    /**
     One sampling round: whatever order the table iterates in and wherever in it
     the round starts, it picks from the window that wraps round from there.
     */
    method SampleOne(sample: nat, now: nat)
      returns (picked: Option<Removal>, ghost order: seq<Key>, ghost start: nat)
      requires sample >= 1 && entries != map[]
      ensures Lists(order, entries) && start < |order|
      ensures var w := Wrapped(order, start, Min(sample, |order|));
              && picked.Some?
              && (forall j :: 0 <= j < |w| ==> w[j] in entries)
              && exists i :: 0 <= i < |w| && w[i] == picked.value.key
                             && PickedAt(entries, now, w, i, picked.value.cause)
      ensures CanPick(entries, sample, now, picked.value) && picked.value.key in entries
    {
      var listed := Iterate(entries);
      var from: nat :| from < |listed|;
      order, start := listed, from;
      var window := Wrapped(listed, from, Min(sample, |listed|));
      WrappedIsWindow(entries, listed, from, sample);
      var dead, victim, i := Scan(window, now);
      if dead.Some? {
        assert PickedAt(entries, now, window, i, Expired);
        picked := Some(Removal(dead.value, Expired));
      } else if victim.Some? {
        assert PickedAt(entries, now, window, i, Evicted);
        picked := Some(Removal(victim.value.0, Evicted));
      } else {
        picked := None;
      }
    }

    /** Scan a window: the first expired entry met, else the first of the least recently stamped. */
    method Scan(window: seq<Key>, now: nat)
      returns (dead: Option<Key>, victim: Option<(Key, nat)>, ghost at: nat)
      requires forall i :: 0 <= i < |window| ==> window[i] in entries
      ensures window != [] ==> at < |window| && (dead.Some? || victim.Some?)
      ensures dead.Some? ==> at < |window| && dead.value == window[at] && PickedAt(entries, now, window, at, Expired)
      ensures dead.None? && victim.Some? ==>
                at < |window| && victim.value.0 == window[at] && PickedAt(entries, now, window, at, Evicted)
    {
      dead, victim, at := None, None, 0;
      var i := 0;
      while i < |window|
        invariant 0 <= i <= |window| && dead.None?
        invariant forall j :: 0 <= j < i ==> !entries[window[j]].IsExpired(now)
        invariant i == 0 <==> victim.None?
        invariant i > 0 ==>
                    && 0 <= at < i && victim.value == (window[at], entries[window[at]].lastAccess)
                    && (forall j :: 0 <= j < at ==> entries[window[j]].lastAccess > victim.value.1)
                    && (forall j :: at < j < i ==> entries[window[j]].lastAccess >= victim.value.1)
      {
        var key := window[i];
        if entries[key].IsExpired(now) {
          dead, at := Some(key), i;
          break;
        }
        var stamp := entries[key].lastAccess;
        if victim.None? || stamp < victim.value.1 {
          victim, at := Some((key, stamp)), i;
        }
        i := i + 1;
      }
    }

    /** Drop every expired entry, skipping a shard with nothing that can expire. */
    method Reap(now: nat) returns (removed: seq<Removal>)
      requires Valid()
      modifies this
      ensures Valid() && IsSweep(old(View()), now, removed)
      ensures View() == Counted(DropAll(old(View()), removed), removed)
    {
      hide Removable, DropAll, Count, Exact, Stamped;
      removed := [];
      ghost var before := View();
      SweepsNothing(before, now);
      if ttlHint == 0 {
        return;
      }
      var dead := CollectExpired(now);
      var i := 0;
      while i < |dead|
        invariant 0 <= i <= |dead|
        invariant Synced() && Removable(before, removed)
        invariant View() == DropAll(before, removed)
        invariant IsReport(removed, dead[..i])
      {
        KeysOfReport(removed, dead[..i]);
        var r := Removal(dead[i], Expired);
        RemovableExtend(before, removed, r);
        ReportExtend(removed, dead, i);
        TakeOut(dead[i]);
        removed := removed + [r];
        i := i + 1;
      }
      assert dead[..i] == dead;
      KeysOfReport(removed, dead);
      assert IsSweep(before, now, removed);
      DropAllKeeps(before, removed);
      CountedKeeps(View(), removed);
      ghost var after := View();
      expired := expired + i;
      assert View() == Counted(after, removed);
    }

    /** The expired keys, in the table's iteration order. */
    method CollectExpired(now: nat) returns (dead: seq<Key>)
      ensures forall k :: k in dead <==> k in entries && entries[k].IsExpired(now)
      ensures forall i, j :: 0 <= i < j < |dead| ==> dead[i] != dead[j]
    {
      var order := Iterate(entries);
      dead := [];
      var i := 0;
      while i < |order|
        invariant 0 <= i <= |order|
        invariant forall k :: k in dead <==> k in order[..i] && entries[k].IsExpired(now)
        invariant forall i, j :: 0 <= i < j < |dead| ==> dead[i] != dead[j]
      {
        assert order[i] !in order[..i];
        if entries[order[i]].IsExpired(now) {
          dead := dead + [order[i]];
        }
        i := i + 1;
      }
    }
  }

  /** `removed` reports exactly these keys, in order, as expired. */
  ghost predicate IsReport(removed: seq<Removal>, keys: seq<Key>) {
    |removed| == |keys| && forall i :: 0 <= i < |keys| ==> removed[i] == Removal(keys[i], Expired)
  }

  lemma ReportExtend(removed: seq<Removal>, dead: seq<Key>, i: nat)
    requires i < |dead| && IsReport(removed, dead[..i])
    ensures IsReport(removed + [Removal(dead[i], Expired)], dead[..i + 1])
  {
  }

  lemma {:induction false} KeysOfReport(removed: seq<Removal>, keys: seq<Key>)
    requires IsReport(removed, keys)
    ensures KeySet(removed) == set k | k in keys
    ensures forall r :: r in removed ==> r.cause == Expired
    ensures Count(removed, Expired) == |removed| == |keys| && Count(removed, Evicted) == 0
  {
    if removed == [] {
    } else {
      KeysOfReport(Init(removed), Init(keys));
      assert keys == Init(keys) + [Last(keys)];
    }
  }

  /** The keys of a hash table in whatever order its iterator yields them. */
  method Iterate(m: Table) returns (order: seq<Key>)
    ensures Lists(order, m)
  {
    order := [];
    var rest := m;
    while rest != map[]
      invariant rest.Keys <= m.Keys && |rest| + |order| == |m|
      invariant forall k :: k in order <==> k in m && k !in rest
      invariant forall i, j :: 0 <= i < j < |order| ==> order[i] != order[j]
      decreases |rest|
    {
      var k :| k in rest;
      order := order + [k];
      rest := rest - {k};
    }
  }
}
