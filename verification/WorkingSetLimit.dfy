/** How far the working-set guarantee reaches: no further, for any sample size. */
module WorkingSetLimit {
  import opened Arithmetic
  import opened Entries
  import opened ShardSpec
  import opened Eviction
  import opened ShardRuns

  /** As many distinct keys of one length as that length. */
  function Nth(length: nat, i: nat): (k: Key)
    ensures |k| == length
  {
    seq(length, x => if x == i then 1 else 0)
  }

  lemma NthDiffer(length: nat, i: nat, j: nat)
    requires i < length && j < length && i != j
    ensures Nth(length, i) != Nth(length, j)
  {
    assert Nth(length, i)[i] == 1 && Nth(length, j)[i] == 0;
  }

  /** The charge for such a key with an empty value. */
  function Charge(length: nat): nat {
    length + ENTRY_OVERHEAD
  }

  /** The first `i` keys, stamped in order. */
  function Filled(length: nat, i: nat): Table
    requires i <= length
  {
    if i == 0 then map[] else Filled(length, i - 1)[Nth(length, i - 1) := Entry([], i - 1, 0)]
  }

  lemma {:induction false} FilledUpTo(length: nat, i: nat, j: nat)
    requires i <= length && j < length
    ensures Nth(length, j) in Filled(length, i) <==> j < i
    ensures j < i ==> Filled(length, i)[Nth(length, j)] == Entry([], j, 0)
  {
    hide Nth;
    if i == 0 {
    } else {
      FilledUpTo(length, i - 1, j);
      if j != i - 1 {
        NthDiffer(length, j, i - 1);
      }
    }
  }

  lemma {:induction false} FilledSize(length: nat, i: nat)
    requires i <= length
    ensures |Filled(length, i)| == i
  {
    hide Nth;
    if i == 0 {
    } else {
      FilledSize(length, i - 1);
      FilledUpTo(length, i - 1, i - 1);
      var m, k := Filled(length, i - 1), Nth(length, i - 1);
      assert Filled(length, i).Keys == m.Keys + {k};
      assert |Filled(length, i)| == |Filled(length, i).Keys| && |m| == |m.Keys|;
    }
  }

  /** The shard after inserting the first `i` keys, before evicting anything. */
  function Loaded(length: nat, i: nat): State
    requires i <= length
  {
    State(Filled(length, i), i * Charge(length), 0, i, 0, 0, 0, 0)
  }

  lemma LoadOne(length: nat, i: nat)
    requires i < length
    ensures Stored(Loaded(length, i), Nth(length, i), [], 0) == Loaded(length, i + 1)
  {
    hide Nth;
    FilledUpTo(length, i, i);
    Distribute(i, 1, Charge(length));
  }

  /** While there is room nothing is evicted. */
  lemma RoomFor(length: nat, i: nat)
    requires i + 1 < length
    ensures Step((length - 1) * Charge(length), length, Loaded(length, i),
                 Insert(Nth(length, i), [], 0, 0, []), Loaded(length, i + 1))
  {
    hide CanPick, Rounds, Removable, DropAll, Count, Charge, Nth, Filled, Update;
    LoadOne(length, i);
    TimesMonotone(i + 1, length - 1, Charge(length));
    EvictsNothing(Loaded(length, i + 1), (length - 1) * Charge(length), length, 0);
  }

  /** The shard once the last key has displaced the first. */
  function Displaced(length: nat): State
    requires length > 0
  {
    FilledUpTo(length, length, 0);
    Counted(Drop(Loaded(length, length), Nth(length, 0)), [Removal(Nth(length, 0), Evicted)])
  }

  lemma OldestPicked(length: nat)
    requires length > 0
    ensures Nth(length, 0) in Filled(length, length)
    ensures CanPick(Filled(length, length), length, 0, Removal(Nth(length, 0), Evicted))
  {
    hide Nth, Filled;
    FilledSize(length, length);
    var w, m := seq(length, i requires 0 <= i < length => Nth(length, i)), Filled(length, length);
    forall i, j | 0 <= i < j < |w|
      ensures w[i] != w[j]
    {
      NthDiffer(length, i, j);
    }
    forall i | 0 <= i < |w|
      ensures w[i] in m && m[w[i]] == Entry([], i, 0)
    {
      FilledUpTo(length, length, i);
    }
    assert w[0] == Nth(length, 0);
    assert IsWindow(m, length, w);
    assert PickedAt(m, 0, w, 0, Evicted);
  }

  lemma LastDisplaces(length: nat)
    requires length > 1
    ensures Step((length - 1) * Charge(length), length, Loaded(length, length - 1),
                 Insert(Nth(length, length - 1), [], 0, 0, [Removal(Nth(length, 0), Evicted)]), Displaced(length))
  {
    hide CanPick, Rounds, Removable, DropAll, Count, Nth, Filled, Update;
    var s, r, capacity := Loaded(length, length), Removal(Nth(length, 0), Evicted), (length - 1) * Charge(length);
    LoadOne(length, length - 1);
    OldestPicked(length);
    Distribute(length - 1, 1, Charge(length));
    EvictsNothing(s, capacity, length, 0);
    RoundsExtend(s, capacity, length, 0, [], r);
    assert [] + [r] == [r];
  }

  /** The operations: the keys inserted in order. */
  function Load(length: nat, i: nat): Op {
    Insert(Nth(length, i), [], 0, 0, if i + 1 < length then [] else [Removal(Nth(length, 0), Evicted)])
  }

  lemma {:induction false} LoadStamps(length: nat, ss: seq<State>, ops: seq<Op>, n: nat)
    requires |ops| == length && |ss| == length + 1 && 1 <= n <= length
    requires forall i :: 0 <= i < length ==> ops[i] == Load(length, i)
    ensures |RecentKeys(ss, ops, n)| == n - 1
    ensures forall k :: k in RecentKeys(ss, ops, n) ==> exists j :: 1 <= j < n && k == Nth(length, j)
  {
    hide Nth;
    if n == 1 {
    } else {
      LoadStamps(length, ss, ops, n - 1);
      var k := Nth(length, n - 1);
      forall j | 1 <= j < n - 1
        ensures Nth(length, j) != k
      {
        NthDiffer(length, j, n - 1);
      }
      assert RecentKeys(ss, ops, n) == RecentKeys(ss, ops, n - 1) + {k};
    }
  }

  /**
   One more recent key is too many, whatever the sample: with a budget for
   `sample - 1` entries and `sample - 1` other keys stamped since, a key that was
   accessed and is neither deleted nor expired can be gone.
   */
  lemma WorkingSetTight(sample: nat) returns (ss: seq<State>, ops: seq<Op>)
    requires sample >= 2
    ensures var k, most := Nth(sample, 0), Charge(sample);
            && Run((sample - 1) * most, sample, ss, ops) && ss[0] == INIT && |ops| == sample
            && Accesses(ss[0], ops[0], k, [], 0) && (forall i :: 0 <= i < sample ==> InsertAtMost(ops[i], most))
            && (forall i :: 1 <= i < sample ==> ops[i] != Delete(k) && k !in Stamps(ss[i], ops[i]))
            && |RecentKeys(ss, ops, sample)| == sample - 1
            && k !in ss[sample].entries
  {
    hide Step, Nth, Filled, Displaced;
    ops := seq(sample, i requires 0 <= i < sample => Load(sample, i));
    ss := seq(sample, i requires 0 <= i < sample => Loaded(sample, i)) + [Displaced(sample)];
    forall i | 0 <= i < sample
      ensures Step((sample - 1) * Charge(sample), sample, ss[i], ops[i], ss[i + 1])
    {
      if i + 1 < sample {
        RoomFor(sample, i);
      } else {
        LastDisplaces(sample);
      }
    }
    forall i | 1 <= i < sample
      ensures Nth(sample, 0) !in Stamps(ss[i], ops[i])
    {
      NthDiffer(sample, 0, i);
    }
    LoadStamps(sample, ss, ops, sample);
    FirstGone(sample);
    assert Filled(sample, 0) == map[] by { EmptyFirst(sample); }
  }

  lemma EmptyFirst(length: nat)
    ensures Filled(length, 0) == map[]
  {
  }

  lemma FirstGone(length: nat)
    requires length > 0
    ensures Nth(length, 0) in Filled(length, length) && Nth(length, 0) !in Displaced(length).entries
  {
    hide Nth;
    FilledUpTo(length, length, 0);
  }
}
