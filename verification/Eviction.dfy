/**
 Approximated LRU by sampling.  Each round reads one window of the hash table,
 starting anywhere and wrapping round its end, and drops either the first
 expired entry it meets or else the least recently stamped one.
 */
module Eviction {
  import opened Arithmetic
  import opened Entries
  import opened ShardSpec

  /** `w` lists distinct entries of the table: as many as the sample size, or all there are. */
  predicate IsWindow(m: Table, sample: nat, w: seq<Key>) {
    && |w| == Min(sample, |m|)
    && (forall i :: 0 <= i < |w| ==> w[i] in m)
    && (forall i, j :: 0 <= i < j < |w| ==> w[i] != w[j])
  }

  /** What a scan of the window settles on at position `i`. */
  predicate PickedAt(m: Table, now: nat, w: seq<Key>, i: nat, cause: Cause)
    requires forall j :: 0 <= j < |w| ==> w[j] in m
    requires i < |w|
  {
    match cause
    case Expired =>
      m[w[i]].IsExpired(now) && forall j :: 0 <= j < i ==> !m[w[j]].IsExpired(now)
    case Evicted =>
      && (forall j :: 0 <= j < |w| ==> !m[w[j]].IsExpired(now))
      && (forall j :: 0 <= j < i ==> m[w[j]].lastAccess > m[w[i]].lastAccess)
      && (forall j :: i < j < |w| ==> m[w[j]].lastAccess >= m[w[i]].lastAccess)
  }

  /** An order a hash table may iterate in. */
  ghost predicate Lists(order: seq<Key>, m: Table) {
    && |order| == |m|
    && (forall k :: k in order <==> k in m)
    && (forall i, j :: 0 <= i < j < |order| ==> order[i] != order[j])
  }

  /** The entries read from `start` on, going on at the front when the order ends. */
  function Wrapped(order: seq<Key>, start: nat, width: nat): (w: seq<Key>)
    requires start < |order| && width <= |order|
    ensures |w| == width
  {
    (order[start..] + order)[..width]
  }

  /** Some window makes a round drop `r`. */
  ghost predicate CanPick(m: Table, sample: nat, now: nat, r: Removal) {
    exists w, i :: IsWindow(m, sample, w) && 0 <= i < |w| && w[i] == r.key && PickedAt(m, now, w, i, r.cause)
  }

  /** Each round begins over budget and drops something its window allows. */
  ghost predicate Rounds(s: State, capacity: nat, sample: nat, now: nat, removed: seq<Removal>) {
    removed == [] ||
    (&& Rounds(s, capacity, sample, now, Init(removed))
     && Removable(s, removed)
     && var mid := DropAll(s, Init(removed));
        mid.bytes > capacity && CanPick(mid.entries, sample, now, Last(removed)))
  }

  /** A complete eviction pass. */
  ghost predicate Evicts(s: State, capacity: nat, sample: nat, now: nat, removed: seq<Removal>) {
    && Removable(s, removed)
    && Rounds(s, capacity, sample, now, removed)
    && DropAll(s, removed).bytes <= capacity
  }

  /** The rounds of a pass up to any point are rounds. */
  lemma {:induction false} RoundsPrefix(s: State, capacity: nat, sample: nat, now: nat, removed: seq<Removal>, n: nat)
    requires Rounds(s, capacity, sample, now, removed) && n <= |removed|
    ensures Rounds(s, capacity, sample, now, removed[..n])
    ensures Removable(s, removed[..n])
  {
    hide CanPick, DropAll, KeySet;
    if n == |removed| {
      assert removed[..n] == removed;
    } else {
      var shorter := Init(removed);
      assert Rounds(s, capacity, sample, now, shorter);
      RoundsPrefix(s, capacity, sample, now, shorter, n);
      assert shorter[..n] == removed[..n];
    }
  }

  lemma EvictsNothing(s: State, capacity: nat, sample: nat, now: nat)
    ensures Removable(s, []) && Rounds(s, capacity, sample, now, []) && DropAll(s, []) == s
    ensures Counted(s, []) == s && Count([], Evicted) == Count([], Expired) == 0
    ensures s.bytes <= capacity ==> Evicts(s, capacity, sample, now, [])
  {
  }

  lemma RoundsExtend(s: State, capacity: nat, sample: nat, now: nat, removed: seq<Removal>, r: Removal)
    requires Removable(s, removed) && Rounds(s, capacity, sample, now, removed)
    requires DropAll(s, removed).bytes > capacity && r.key in DropAll(s, removed).entries
    requires CanPick(DropAll(s, removed).entries, sample, now, r)
    ensures Removable(s, removed + [r]) && Rounds(s, capacity, sample, now, removed + [r])
    ensures DropAll(s, removed + [r]) == Drop(DropAll(s, removed), r.key)
  {
    RemovableExtend(s, removed, r);
    assert Init(removed + [r]) == removed && Last(removed + [r]) == r;
  }

  // ---- what a complete pass achieves ----

  /** An eviction pass drops nothing it did not need to. */
  lemma LastRemovalNecessary(s: State, capacity: nat, sample: nat, now: nat, removed: seq<Removal>)
    requires Exact(s) && Evicts(s, capacity, sample, now, removed)
    ensures removed == [] <==> s.bytes <= capacity
    ensures removed != [] ==>
              var r := Last(removed);
              var mid := DropAll(s, Init(removed));
              && mid.bytes > capacity
              && r.key in mid.entries
              && mid.bytes - EntryRam(r.key, mid.entries[r.key].value) <= capacity
  {
    if removed != [] {
      DropAllKeeps(s, Init(removed));
      DropKeeps(DropAll(s, Init(removed)), Last(removed).key);
    }
  }

  /** An entry's cause tells whether it had expired at the pass's one clock reading. */
  lemma CauseIsExact(s: State, capacity: nat, sample: nat, now: nat, removed: seq<Removal>, n: nat)
    requires Rounds(s, capacity, sample, now, removed) && n < |removed|
    ensures removed[n].key in s.entries
    ensures removed[n].cause == Expired <==> s.entries[removed[n].key].IsExpired(now)
  {
    var upTo := removed[..n + 1];
    RoundsPrefix(s, capacity, sample, now, removed, n + 1);
    var mid := DropAll(s, Init(upTo));
    var w, j :| IsWindow(mid.entries, sample, w) && 0 <= j < |w| && w[j] == Last(upTo).key
                && PickedAt(mid.entries, now, w, j, Last(upTo).cause);
  }

  /** What one live victim's round proves about an entry that round could have dropped instead. */
  lemma CoveringPick(m: Table, sample: nat, now: nat, r: Removal, k: Key)
    requires CanPick(m, sample, now, r) && r.cause == Evicted && sample >= |m|
    requires k in m && k != r.key
    ensures r.key in m && !m[k].IsExpired(now) && m[k].lastAccess >= m[r.key].lastAccess
  {
    var w, j :| IsWindow(m, sample, w) && 0 <= j < |w| && w[j] == r.key && PickedAt(m, now, w, j, r.cause);
    CoveringWindow(m, w);
    var n :| 0 <= n < |w| && w[n] == k;
  }

  /**
   When the sample covers the table the policy is exact LRU: a live entry goes
   only when no expired one is left, and every entry still there was used more
   recently than it.
   */
  lemma CoveringSampleIsExactLru(s: State, capacity: nat, sample: nat, now: nat, removed: seq<Removal>, n: nat, k: Key)
    requires Stamped(s) && Rounds(s, capacity, sample, now, removed)
    requires sample >= |s.entries| && n < |removed| && removed[n].cause == Evicted
    requires k in s.entries && k !in KeySet(removed[..n + 1])
    ensures removed[n].key in s.entries && !s.entries[k].IsExpired(now)
    ensures s.entries[k].lastAccess > s.entries[removed[n].key].lastAccess
  {
    var upTo := removed[..n + 1];
    RoundsPrefix(s, capacity, sample, now, removed, n + 1);
    var mid := DropAll(s, Init(upTo));
    SubmapSmaller(mid.entries, s.entries);
    CoveringPick(mid.entries, sample, now, Last(upTo), k);
  }

  lemma SubmapSmaller(a: Table, b: Table)
    requires forall k :: k in a ==> k in b
    ensures |a| <= |b|
  {
    Subset(a.Keys, b.Keys);
    assert |a| == |a.Keys| && |b| == |b.Keys|;
  }

  lemma {:induction false} Subset<T>(a: set<T>, b: set<T>)
    requires a <= b
    ensures |a| <= |b|
    ensures |a| == |b| ==> a == b
  {
    assert b == a + (b - a);
    assert |b| == |a| + |b - a|;
  }

  /** Distinct elements of a sequence are as many as its length. */
  lemma {:induction false} Distinct<T>(w: seq<T>)
    requires forall i, j :: 0 <= i < j < |w| ==> w[i] != w[j]
    ensures |set x | x in w| == |w|
  {
    if w == [] {
    } else {
      var n := |w| - 1;
      Distinct(w[..n]);
      assert (set x | x in w) == (set x | x in w[..n]) + {w[n]};
    }
  }

  lemma CoveringWindow(m: Table, w: seq<Key>)
    requires IsWindow(m, |w|, w) && |w| == |m|
    ensures forall k :: k in m ==> k in w
  {
    var s := set k | k in w;
    Distinct(w);
    assert s <= m.Keys;
    Subset(s, m.Keys);
  }

  // ---- which windows there are ----

  /** Where in the order an entry of a window stands. */
  lemma WrappedAt(order: seq<Key>, start: nat, width: nat, i: nat)
    requires start < |order| && i < width <= |order|
    ensures Wrapped(order, start, width)[i] == order[if start + i < |order| then start + i else start + i - |order|]
  {
  }

  /** A window that runs off the end and starts again still lists distinct entries. */
  lemma WrappedIsWindow(m: Table, order: seq<Key>, start: nat, sample: nat)
    requires Lists(order, m) && start < |order|
    ensures IsWindow(m, sample, Wrapped(order, start, Min(sample, |order|)))
  {
    hide Wrapped;
    var n := Min(sample, |order|);
    var w := Wrapped(order, start, n);
    forall i | 0 <= i < n
      ensures w[i] in m
    {
      WrappedAt(order, start, n, i);
    }
    forall i, j | 0 <= i < j < n
      ensures w[i] != w[j]
    {
      WrappedAt(order, start, n, i);
      WrappedAt(order, start, n, j);
    }
  }

  /** A table has as many distinct keys to list as it has entries. */
  lemma {:induction false} SomeKeys(m: Table, n: nat) returns (w: seq<Key>)
    requires n <= |m|
    ensures |w| == n && (forall i :: 0 <= i < |w| ==> w[i] in m)
    ensures forall i, j :: 0 <= i < j < |w| ==> w[i] != w[j]
    decreases n
  {
    if n == 0 {
      w := [];
    } else {
      var k :| k in m;
      Fewer(m, {k});
      var rest := SomeKeys(m - {k}, n - 1);
      w := rest + [k];
    }
  }

  lemma Fewer(m: Table, ks: set<Key>)
    requires ks <= m.Keys
    ensures |m - ks| == |m| - |ks|
  {
    assert (m - ks).Keys == m.Keys - ks;
    assert |m - ks| == |(m - ks).Keys| && |m| == |m.Keys|;
  }

  /** Any window can be listed first. */
  lemma WindowLeads(m: Table, sample: nat, w: seq<Key>) returns (order: seq<Key>)
    requires IsWindow(m, sample, w)
    ensures Lists(order, m) && w <= order
  {
    var first := set k | k in w;
    Distinct(w);
    Fewer(m, first);
    var rest := SomeKeys(m - first, |m| - |w|);
    order := w + rest;
    forall i, j | 0 <= i < j < |order|
      ensures order[i] != order[j]
    {
      if i < |w| <= j {
        assert order[i] in first && order[j] !in first;
      }
    }
    assert IsWindow(m, |order|, order);
    CoveringWindow(m, order);
  }

  /**
   The windows a round can read, over all iteration orders and all places to
   start, are exactly the lists of distinct entries of the right length.
   */
  lemma WindowExactly(m: Table, sample: nat, w: seq<Key>)
    requires m != map[]
    ensures IsWindow(m, sample, w) <==>
              exists order, start :: Lists(order, m) && 0 <= start < |order|
                                     && w == Wrapped(order, start, Min(sample, |order|))
  {
    if IsWindow(m, sample, w) {
      var order := WindowLeads(m, sample, w);
      assert w == Wrapped(order, 0, Min(sample, |order|));
    } else {
      forall order, start: nat | Lists(order, m) && start < |order|
        ensures w != Wrapped(order, start, Min(sample, |order|))
      {
        WrappedIsWindow(m, order, start, sample);
      }
    }
  }

  /**
   The working-set step.  With every entry charged at most `most`, a budget
   fitting `sample - 1` of them, and at most `sample - 2` keys stamped after
   `k`, no eviction pass drops a live `k`.
   */
  lemma {:induction false} EvictionSparesWorkingSet(s: State, capacity: nat, sample: nat, now: nat,
                                                    removed: seq<Removal>, most: nat, k: Key, recent: set<Key>)
    requires Inv(s) && Removable(s, removed) && Rounds(s, capacity, sample, now, removed)
    requires sample >= 2 && (sample - 1) * most <= capacity
    requires forall x :: x in s.entries ==> EntryRam(x, s.entries[x].value) <= most
    requires k in s.entries && !s.entries[k].IsExpired(now)
    requires forall x :: x in s.entries && s.entries[x].lastAccess > s.entries[k].lastAccess ==> x in recent
    requires |recent| <= sample - 2
    ensures k !in KeySet(removed)
  {
    if removed == [] {
    } else {
      EvictionSparesWorkingSet(s, capacity, sample, now, Init(removed), most, k, recent);
      if Last(removed).key == k {
        DropAllKeeps(s, Init(removed));
        WorkingSetWindow(DropAll(s, Init(removed)), capacity, sample, now, Last(removed), most, recent);
      }
    }
  }

  /** The window that would drop such a key holds too many more recent ones. */
  lemma WorkingSetWindow(s: State, capacity: nat, sample: nat, now: nat, r: Removal, most: nat, recent: set<Key>)
    requires Inv(s) && s.bytes > capacity
    requires sample >= 2 && (sample - 1) * most <= capacity
    requires forall x :: x in s.entries ==> EntryRam(x, s.entries[x].value) <= most
    requires r.key in s.entries && !s.entries[r.key].IsExpired(now)
    requires forall x :: x in s.entries && s.entries[x].lastAccess > s.entries[r.key].lastAccess ==> x in recent
    requires |recent| <= sample - 2
    ensures !CanPick(s.entries, sample, now, r)
  {
    OverBudgetMany(s.entries, capacity, sample, most);
    forall w, j | IsWindow(s.entries, sample, w) && 0 <= j < |w| && w[j] == r.key
      ensures !PickedAt(s.entries, now, w, j, r.cause)
    {
      if PickedAt(s.entries, now, w, j, r.cause) {
        WindowFull(s, now, r, w, j, recent);
      }
    }
  }

  lemma OverBudgetMany(m: Table, capacity: nat, sample: nat, most: nat)
    requires TotalRam(m) > capacity
    requires sample >= 2 && (sample - 1) * most <= capacity
    requires forall x :: x in m ==> EntryRam(x, m[x].value) <= most
    ensures |m| >= sample
  {
    RamAtMost(m, most);
    TimesMonotone(|m|, sample - 1, most);
  }

  lemma WindowFull(s: State, now: nat, r: Removal, w: seq<Key>, j: nat, recent: set<Key>)
    requires Stamped(s) && IsWindow(s.entries, |w|, w)
    requires j < |w| && w[j] == r.key && !s.entries[r.key].IsExpired(now)
    requires PickedAt(s.entries, now, w, j, r.cause)
    requires forall x :: x in s.entries && s.entries[x].lastAccess > s.entries[r.key].lastAccess ==> x in recent
    ensures |w| - 1 <= |recent|
  {
    var all := set x | x in w;
    Distinct(w);
    forall x | x in all - {r.key}
      ensures x in recent
    {
      var i :| 0 <= i < |w| && w[i] == x;
      assert s.entries[x].lastAccess != s.entries[r.key].lastAccess;
    }
    Subset(all - {r.key}, recent);
  }
}
