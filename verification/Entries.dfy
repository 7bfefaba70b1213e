/** The contents of one shard's hash table and the memory charged for them. */
module Entries {
  import opened Arithmetic
  import opened Bytes

  type Key = Blob
  type Value = Blob

  /** RAM charged for an entry beyond its key and value bytes. */
  const ENTRY_OVERHEAD: nat := 96

  /** One cached value. `expiresAt` is in unix milliseconds; 0 means never. */
  datatype Entry = Entry(value: Value, lastAccess: nat, expiresAt: nat) {
    predicate IsExpired(now: nat) {
      expiresAt != 0 && now >= expiresAt
    }
  }

  type Table = map<Key, Entry>

  datatype Cause = Evicted | Expired

  /** What an eviction listener is told: a key the cache dropped of its own accord, and why. */
  datatype Removal = Removal(key: Key, cause: Cause)

  function EntryRam(key: Key, value: Value): nat {
    |key| + |value| + ENTRY_OVERHEAD
  }

  /** The memory charged for a whole table. */
  ghost function TotalRam(m: Table): nat {
    if m == map[] then 0 else
      var k :| k in m;
      EntryRam(k, m[k].value) + TotalRam(m - {k})
  }

  /** The keys carrying an expiry. */
  function TtlKeys(m: Table): set<Key> {
    set k | k in m && m[k].expiresAt != 0
  }

  /** Which entry the definition of TotalRam happens to peel first does not matter. */
  lemma {:induction false} RamWithout(m: Table, k: Key)
    requires k in m
    ensures TotalRam(m) == EntryRam(k, m[k].value) + TotalRam(m - {k})
    decreases |m|
  {
    var p :| p in m && TotalRam(m) == EntryRam(p, m[p].value) + TotalRam(m - {p});
    if p == k {
    } else {
      RamWithout(m - {p}, k);
      RamWithout(m - {k}, p);
      assert m - {p} - {k} == m - {k} - {p};
    }
  }

  // ---- what is charged, measured another way ----

  /** The bytes of all keys. */
  ghost function KeyBytes(m: Table): nat {
    if m == map[] then 0 else
      var k :| k in m;
      |k| + KeyBytes(m - {k})
  }

  /** The bytes of all values. */
  ghost function ValueBytes(m: Table): nat {
    if m == map[] then 0 else
      var k :| k in m;
      |m[k].value| + ValueBytes(m - {k})
  }

  lemma {:induction false} KeyBytesWithout(m: Table, k: Key)
    requires k in m
    ensures KeyBytes(m) == |k| + KeyBytes(m - {k})
    decreases |m|
  {
    var p :| p in m && KeyBytes(m) == |p| + KeyBytes(m - {p});
    if p != k {
      KeyBytesWithout(m - {p}, k);
      KeyBytesWithout(m - {k}, p);
      assert m - {p} - {k} == m - {k} - {p};
    }
  }

  lemma {:induction false} ValueBytesWithout(m: Table, k: Key)
    requires k in m
    ensures ValueBytes(m) == |m[k].value| + ValueBytes(m - {k})
    decreases |m|
  {
    var p :| p in m && ValueBytes(m) == |m[p].value| + ValueBytes(m - {p});
    if p != k {
      ValueBytesWithout(m - {p}, k);
      ValueBytesWithout(m - {k}, p);
      assert m - {p} - {k} == m - {k} - {p};
    }
  }

  /** What is charged for a table is its key bytes, its value bytes and 96 for each entry. */
  lemma {:induction false} ChargeExactly(m: Table)
    ensures TotalRam(m) == KeyBytes(m) + ValueBytes(m) + 96 * |m|
    decreases |m|
  {
    if m == map[] {
    } else {
      var k :| k in m;
      RamWithout(m, k);
      KeyBytesWithout(m, k);
      ValueBytesWithout(m, k);
      ChargeExactly(m - {k});
      assert m.Keys == (m - {k}).Keys + {k};
      assert |m| == |m.Keys| && |m - {k}| == |(m - {k}).Keys|;
    }
  }

  /** No entry is charged more than the table. */
  lemma EntryWithinCharge(m: Table, k: Key)
    requires k in m
    ensures |k| + |m[k].value| + 96 <= TotalRam(m)
  {
    RamWithout(m, k);
  }

  // ---- changes to a table ----

  lemma RamPut(m: Table, k: Key, e: Entry)
    ensures TotalRam(m[k := e]) == TotalRam(m - {k}) + EntryRam(k, e.value)
    ensures k in m ==> TotalRam(m) == TotalRam(m - {k}) + EntryRam(k, m[k].value)
    ensures k !in m ==> TotalRam(m - {k}) == TotalRam(m)
  {
    RamWithout(m[k := e], k);
    assert m[k := e] - {k} == m - {k};
    if k in m {
      RamWithout(m, k);
    } else {
      assert m - {k} == m;
    }
  }

  lemma TtlWithout(m: Table, k: Key)
    requires k in m
    ensures |TtlKeys(m)| == |TtlKeys(m - {k})| + if m[k].expiresAt != 0 then 1 else 0
  {
    if m[k].expiresAt != 0 {
      assert TtlKeys(m) == TtlKeys(m - {k}) + {k};
    } else {
      assert TtlKeys(m) == TtlKeys(m - {k});
    }
  }

  lemma TtlPut(m: Table, k: Key, e: Entry)
    ensures |TtlKeys(m[k := e])| == |TtlKeys(m - {k})| + if e.expiresAt != 0 then 1 else 0
    ensures k in m ==> |TtlKeys(m)| == |TtlKeys(m - {k})| + if m[k].expiresAt != 0 then 1 else 0
    ensures k !in m ==> TtlKeys(m - {k}) == TtlKeys(m)
  {
    TtlWithout(m[k := e], k);
    assert m[k := e] - {k} == m - {k};
    if k in m {
      TtlWithout(m, k);
    } else {
      assert m - {k} == m;
    }
  }

  /** A table of entries none dearer than `most` holds at least `TotalRam / most` of them. */
  lemma {:induction false} RamAtMost(m: Table, most: nat)
    requires forall k :: k in m ==> EntryRam(k, m[k].value) <= most
    ensures TotalRam(m) <= |m| * most
    decreases |m|
  {
    if m == map[] {
    } else {
      var k :| k in m;
      RamWithout(m, k);
      RamAtMost(m - {k}, most);
      assert |m| == |m - {k}| + 1;
      Distribute(|m - {k}|, 1, most);
    }
  }

  /** No entry is free, so a table within a budget below the overhead is empty. */
  lemma RamOfNonEmpty(m: Table)
    requires m != map[]
    ensures TotalRam(m) >= ENTRY_OVERHEAD
  {
    var k :| k in m;
    RamWithout(m, k);
  }
}
