/** From the machine's memory ceiling and core count to keyspace budgets, shard counts and shard budgets. */
module Sizing {
  import opened Arithmetic
  import opened Bytes

  const MAX_SHARDS: nat := 512
  const MIN_SHARD_BYTES: nat := 1024 * 1024
  const MIN_SHARDS: nat := 4
  const SHARDS_PER_CORE: nat := 4

  // ---- powers of two ----

  predicate IsPow2(n: nat) {
    n == 1 || (n > 0 && n % 2 == 0 && IsPow2(n / 2))
  }

  /** Position of the highest set bit: `BITS - 1 - leading_zeros`. */
  function HighBit(n: nat): nat
    requires n > 0
  {
    if n == 1 then 0 else 1 + HighBit(n / 2)
  }

  /** `1 << e` */
  function Shift(e: nat): nat {
    if e == 0 then 1 else 2 * Shift(e - 1)
  }

  function PrevPow2(n: nat): nat
    requires n > 0
  {
    Shift(HighBit(n))
  }

  function NextPow2(n: nat): nat {
    if n <= 1 then 1 else 2 * PrevPow2(n - 1)
  }

  lemma {:induction false} PrevPow2Is(n: nat)
    requires n > 0
    ensures IsPow2(PrevPow2(n)) && PrevPow2(n) <= n < 2 * PrevPow2(n)
  {
    if n == 1 {
    } else {
      PrevPow2Is(n / 2);
    }
  }

  lemma NextPow2Is(n: nat)
    ensures IsPow2(NextPow2(n)) && n <= NextPow2(n)
    ensures n > 0 ==> NextPow2(n) < 2 * n
  {
    if n > 1 {
      PrevPow2Is(n - 1);
    }
  }

  /** Two distinct powers of two are at least a factor of two apart. */
  lemma {:induction false} Pow2Gap(p: nat, q: nat)
    requires IsPow2(p) && IsPow2(q) && p < q
    ensures 2 * p <= q
  {
    if p == 1 {
    } else {
      Pow2Gap(p / 2, q / 2);
    }
  }

  lemma NextPow2Fixed(p: nat)
    requires IsPow2(p)
    ensures NextPow2(p) == p
  {
    NextPow2Is(p);
    if p < NextPow2(p) {
      Pow2Gap(p, NextPow2(p));
    }
  }

  lemma NextPow2Monotone(a: nat, b: nat)
    requires a <= b
    ensures NextPow2(a) <= NextPow2(b)
  {
    NextPow2Is(a);
    NextPow2Is(b);
    if NextPow2(b) < NextPow2(a) {
      Pow2Gap(NextPow2(b), NextPow2(a));
    }
  }

  // ---- shards ----

  function ByCores(cores: nat): nat {
    NextPow2(Max(cores, 1) * SHARDS_PER_CORE)
  }

  function ByCapacity(capacityBytes: nat): nat {
    PrevPow2(Max(capacityBytes / MIN_SHARD_BYTES, 1))
  }

  function Clamped(capacityBytes: nat, cores: nat): nat {
    Min(Max(Min(ByCores(cores), Max(ByCapacity(capacityBytes), MIN_SHARDS)), MIN_SHARDS), MAX_SHARDS)
  }

  function ShardCount(capacityBytes: nat, cores: nat): nat {
    NextPow2(Clamped(capacityBytes, cores))
  }

  /** The budget of each of `n` shards. */
  function PerShard(capacityBytes: nat, n: nat): nat
    requires n > 0
  {
    Max(capacityBytes / n, 1)
  }

  /** The clamps meet only powers of two, so the final rounding changes nothing. */
  lemma ShardCountExact(capacityBytes: nat, cores: nat)
    ensures ShardCount(capacityBytes, cores) == Clamped(capacityBytes, cores)
  {
    NextPow2Is(Max(cores, 1) * SHARDS_PER_CORE);
    PrevPow2Is(Max(capacityBytes / MIN_SHARD_BYTES, 1));
    assert IsPow2(4) && IsPow2(512) by { LiteralPowers(); }
    NextPow2Fixed(Clamped(capacityBytes, cores));
  }

  lemma LiteralPowers()
    ensures IsPow2(4) && IsPow2(512)
  {
    assert IsPow2(8) && IsPow2(32) && IsPow2(128);
  }

  lemma ShardCountIsPow2(capacityBytes: nat, cores: nat)
    ensures IsPow2(ShardCount(capacityBytes, cores))
  {
    NextPow2Is(Clamped(capacityBytes, cores));
  }

  /** The shard count routes by a mask, fits its limits, and splits no shard below 1 MiB beyond the fourth. */
  lemma ShardCountSafe(capacityBytes: nat, cores: nat)
    ensures var n := ShardCount(capacityBytes, cores);
            && IsPow2(n) && MIN_SHARDS <= n <= MAX_SHARDS
            && (n > MIN_SHARDS ==> PerShard(capacityBytes, n) >= MIN_SHARD_BYTES)
  {
    hide PrevPow2, NextPow2, IsPow2, ShardCount;
    ShardCountExact(capacityBytes, cores);
    ShardCountIsPow2(capacityBytes, cores);
    var n := ShardCount(capacityBytes, cores);
    if n > MIN_SHARDS {
      var whole := capacityBytes / MIN_SHARD_BYTES;
      PrevPow2Is(Max(whole, 1));
      TimesMonotone(n, whole, MIN_SHARD_BYTES);
      DivideBack(capacityBytes, MIN_SHARD_BYTES, n);
    }
  }

  lemma DivideBack(a: nat, b: nat, n: nat)
    requires n > 0 && n * b <= a
    ensures a / n >= b
  {
    var q := a / n;
    assert a == q * n + a % n;
    assert (q + 1) * n == q * n + n;
    TimesMonotone(q + 1, b, n);
  }

  /** Where capacity allows, there are four shards for each core, up to the limit, and not twice as many. */
  lemma ShardCountServesCores(capacityBytes: nat, cores: nat)
    requires capacityBytes >= MAX_SHARDS * MIN_SHARD_BYTES
    ensures ShardCount(capacityBytes, cores) >= Min(SHARDS_PER_CORE * cores, MAX_SHARDS)
    ensures ShardCount(capacityBytes, cores) < 2 * SHARDS_PER_CORE * Max(cores, 1)
  {
    hide PrevPow2, NextPow2, IsPow2, ShardCount;
    ShardCountExact(capacityBytes, cores);
    NextPow2Is(Max(cores, 1) * SHARDS_PER_CORE);
    LiteralPowers();
    PrevPow2AtLeast(capacityBytes / MIN_SHARD_BYTES, MAX_SHARDS);
  }

  /** The greatest power of two below a number is at least any other. */
  lemma PrevPow2AtLeast(n: nat, p: nat)
    requires 0 < p <= n && IsPow2(p)
    ensures PrevPow2(n) >= p
  {
    hide PrevPow2, IsPow2;
    PrevPow2Is(n);
    if PrevPow2(n) < p {
      Pow2Gap(PrevPow2(n), p);
    }
  }

  lemma ShardCountMonotone(capacityBytes: nat, cores: nat, more: nat)
    requires cores <= more
    ensures ShardCount(capacityBytes, cores) <= ShardCount(capacityBytes, more)
  {
    ShardCountExact(capacityBytes, cores);
    ShardCountExact(capacityBytes, more);
    NextPow2Monotone(Max(cores, 1) * SHARDS_PER_CORE, Max(more, 1) * SHARDS_PER_CORE);
  }

  /** Where routing takes the remainder by a shard count, a mask of one less does the same. */
  lemma {:induction false} MaskIsRemainder(h: nat, n: nat)
    requires IsPow2(n)
    ensures BitAnd(h, n - 1) == h % n
    decreases n
  {
    if n == 1 {
    } else {
      MaskIsRemainder(h / 2, n / 2);
      HalfRemainder(h, n / 2);
      assert (n - 1) / 2 == n / 2 - 1 && (n - 1) % 2 == 1;
      MaskOfZero(h, n - 1);
    }
  }

  lemma MaskOfZero(a: nat, b: nat)
    ensures a == 0 ==> BitAnd(a, b) == 0
    ensures BitAnd(a, b) == 2 * BitAnd(a / 2, b / 2) + if a % 2 == 1 && b % 2 == 1 then 1 else 0
  {
  }

  /**
   Exactly which shard count is chosen: the greatest power of two that is four at
   most, or else keeps to 512, to fewer than eight shards a core, and to 1 MiB a
   shard.
   */
  lemma ShardCountExactly(capacityBytes: nat, cores: nat, m: nat)
    requires IsPow2(m)
    ensures m <= ShardCount(capacityBytes, cores) <==>
              m <= 4 || (m <= 512 && m < 8 * Max(cores, 1) && m * 1048576 <= capacityBytes)
  {
    hide PrevPow2, NextPow2, IsPow2, ShardCount;
    ShardCountExact(capacityBytes, cores);
    UpToNextPow2(m, Max(cores, 1) * SHARDS_PER_CORE);
    var whole := capacityBytes / MIN_SHARD_BYTES;
    UpToPrevPow2(m, Max(whole, 1));
    assert m <= whole <==> m * 1048576 <= capacityBytes;
    Pow2NotZero(m);
  }

  lemma Pow2NotZero(m: nat)
    requires IsPow2(m)
    ensures m >= 1
  {
  }

  lemma UpToPrevPow2(m: nat, n: nat)
    requires IsPow2(m) && n > 0
    ensures m <= PrevPow2(n) <==> m <= n
  {
    hide PrevPow2, IsPow2;
    PrevPow2Is(n);
    if PrevPow2(n) < m {
      Pow2Gap(PrevPow2(n), m);
    }
  }

  lemma UpToNextPow2(m: nat, n: nat)
    requires IsPow2(m) && n > 0
    ensures m <= NextPow2(n) <==> m < 2 * n
  {
    hide NextPow2, IsPow2;
    NextPow2Is(n);
    if NextPow2(n) < m {
      Pow2Gap(NextPow2(n), m);
    }
  }

  /**
   The shards' budgets use the capacity up: together they fall short of it by less
   than a byte a shard, and exceed it only where a byte a shard already does.
   */
  lemma BudgetsUseCapacity(capacityBytes: nat, n: nat)
    requires n > 0
    ensures n * PerShard(capacityBytes, n) > capacityBytes - n
    ensures if capacityBytes >= n then n * PerShard(capacityBytes, n) <= capacityBytes
            else PerShard(capacityBytes, n) == 1
  {
    var q := capacityBytes / n;
    assert capacityBytes == q * n + capacityBytes % n;
    assert n * q == q * n;
    TimesMonotone(q, 0, n);
    if capacityBytes < n {
      TimesMonotone(1, q, n);
    }
  }

  /** What fits one shard: an equal part of the capacity, or a single byte. */
  lemma FitsShardExactly(capacityBytes: nat, n: nat, x: nat)
    requires n > 0
    ensures x <= PerShard(capacityBytes, n) <==> x <= 1 || n * x <= capacityBytes
  {
    var q := capacityBytes / n;
    assert capacityBytes == q * n + capacityBytes % n;
    assert n * x == x * n;
    TimesMonotone(x, q, n);
    TimesMonotone(q + 1, x, n);
    Distribute(q, 1, n);
  }

  // ---- budgets ----

  const MIB: nat := 1024 * 1024
  const FALLBACK_CAPACITY_MB: nat := 256
  const MIN_AUTO_CAPACITY: nat := 64 * MIB
  const MIN_HEADROOM: nat := 256 * MIB
  const AUTO_FRACTION_PERCENT: nat := 70

  datatype CapacitySource = Explicit | Auto | Fallback

  datatype ResolvedCapacity = ResolvedCapacity(bytes: nat, source: CapacitySource)

  function AutoCapacity(limit: Option<nat>): Option<nat> {
    if limit.None? || limit.value < MIN_HEADROOM then None
    else
      var capacity := Min(limit.value / 100 * AUTO_FRACTION_PERCENT, limit.value - MIN_HEADROOM);
      if capacity >= MIN_AUTO_CAPACITY then Some(capacity) else None
  }

  /** `limit` is what detection reports; it is consulted only when nothing was configured. */
  function Resolve(explicitMb: Option<nat>, limit: Option<nat>): ResolvedCapacity {
    if explicitMb.Some? then
      ResolvedCapacity(explicitMb.value * MIB % 0x1_0000_0000_0000_0000, Explicit)
    else match AutoCapacity(limit)
      case Some(bytes) => ResolvedCapacity(bytes, Auto)
      case None => ResolvedCapacity(FALLBACK_CAPACITY_MB * MIB, Fallback)
  }

  /**
   Auto-sizing leaves its headroom exactly when the detected ceiling reaches
   320 MiB.  Below that the fixed fallback applies, which leaves less, and below
   256 MiB exceeds the ceiling itself.
   */
  lemma HeadroomExactly(limit: nat)
    ensures var r := Resolve(None, Some(limit));
            && (r.source == Auto <==> limit >= 335544320)
            && (r.bytes + 268435456 <= limit <==> limit >= 335544320)
            && (r.bytes > limit <==> limit < 268435456)
            && (limit >= 335544320 ==> r.bytes == Min(limit / 100 * 70, limit - 268435456))
            && (limit < 335544320 ==> r == ResolvedCapacity(268435456, Fallback))
  {
    if limit >= 320 * MIB {
      assert limit / 100 >= 320 * MIB / 100;
      assert limit / 100 * AUTO_FRACTION_PERCENT >= MIN_AUTO_CAPACITY;
    }
  }

  /** An explicit size, in MiB, always wins; with nothing detected the fixed fallback does. */
  lemma ResolveOtherwise(mb: nat, limit: Option<nat>)
    ensures mb < 0x1000_0000_0000 ==> Resolve(Some(mb), limit) == ResolvedCapacity(mb * 1048576, Explicit)
    ensures Resolve(Some(mb), limit).source == Explicit
    ensures Resolve(None, None) == ResolvedCapacity(268435456, Fallback)
  {
  }

  // ---- the node ----

  datatype KeyspaceConfig = KeyspaceConfig(name: Blob, capacityMb: Option<nat>, evictSample: nat, defaultTtlSecs: nat)

  /** What a keyspace's engine is built with. */
  datatype Built = Built(capacityBytes: nat, evictSample: nat, defaultTtlSecs: nat)

  function AutoConfigs(configs: seq<KeyspaceConfig>): nat {
    if configs == [] then 0
    else AutoConfigs(configs[..|configs| - 1]) + if configs[|configs| - 1].capacityMb.None? then 1 else 0
  }

  function BuiltFrom(k: KeyspaceConfig, autoCount: nat, limit: Option<nat>): Built
    requires autoCount > 0
  {
    var resolved := Resolve(k.capacityMb, limit);
    Built(if k.capacityMb.None? then resolved.bytes / autoCount else resolved.bytes, k.evictSample, k.defaultTtlSecs)
  }

  /** The last configuration of a name. */
  function LastNamed(configs: seq<KeyspaceConfig>, name: Blob): Option<KeyspaceConfig> {
    if configs == [] then None
    else
      var k := configs[|configs| - 1];
      if k.name == name then Some(k) else LastNamed(configs[..|configs| - 1], name)
  }

  /** One keyspace for each name, from its last configuration. */
  ghost predicate IsBuilt(configs: seq<KeyspaceConfig>, limit: Option<nat>, keyspaces: map<Blob, Built>) {
    && (forall name :: name in keyspaces <==> LastNamed(configs, name).Some?)
    && forall name :: name in keyspaces ==>
         keyspaces[name] == BuiltFrom(LastNamed(configs, name).value, Max(AutoConfigs(configs), 1), limit)
  }

  /** Build one keyspace per name; a later configuration of the same name replaces an earlier. */
  method Build(configs: seq<KeyspaceConfig>, limit: Option<nat>) returns (keyspaces: map<Blob, Built>)
    ensures IsBuilt(configs, limit, keyspaces)
  {
    hide BuiltFrom;
    var autoCount := 0;
    for i := 0 to |configs|
      invariant autoCount == AutoConfigs(configs[..i])
    {
      assert configs[..i + 1][..i] == configs[..i];
      if configs[i].capacityMb.None? {
        autoCount := autoCount + 1;
      }
    }
    assert configs[..|configs|] == configs;
    autoCount := Max(autoCount, 1);
    keyspaces := map[];
    for i := 0 to |configs|
      invariant forall name :: name in keyspaces <==> LastNamed(configs[..i], name).Some?
      invariant forall name :: name in keyspaces ==>
                  keyspaces[name] == BuiltFrom(LastNamed(configs[..i], name).value, autoCount, limit)
    {
      assert configs[..i + 1][..i] == configs[..i];
      keyspaces := keyspaces[configs[i].name := BuiltFrom(configs[i], autoCount, limit)];
    }
  }

  /** The names that end up auto-sized. */
  function AutoNames(configs: seq<KeyspaceConfig>): set<Blob> {
    if configs == [] then {}
    else
      var k, names := configs[|configs| - 1], AutoNames(configs[..|configs| - 1]);
      if k.capacityMb.None? then names + {k.name} else names - {k.name}
  }

  /** They are those whose last configuration leaves the size open, and no more than all that do. */
  lemma {:induction false} AutoNamesExactly(configs: seq<KeyspaceConfig>, name: Blob)
    ensures name in AutoNames(configs) <==>
              LastNamed(configs, name).Some? && LastNamed(configs, name).value.capacityMb.None?
    ensures |AutoNames(configs)| <= AutoConfigs(configs)
  {
    if configs == [] {
    } else {
      AutoNamesExactly(configs[..|configs| - 1], name);
    }
  }

  lemma {:induction false} LastNamedAt(configs: seq<KeyspaceConfig>, name: Blob) returns (i: nat)
    requires exists x :: 0 <= x < |configs| && configs[x].name == name
    ensures i < |configs| && configs[i].name == name && forall x :: i < x < |configs| ==> configs[x].name != name
    ensures LastNamed(configs, name) == Some(configs[i])
    decreases |configs|
  {
    var n := |configs| - 1;
    if configs[n].name == name {
      i := n;
    } else {
      i := LastNamedAt(configs[..n], name);
    }
  }

  lemma {:induction false} NoneNamed(configs: seq<KeyspaceConfig>, name: Blob)
    requires LastNamed(configs, name).Some?
    ensures exists x :: 0 <= x < |configs| && configs[x].name == name
  {
    if configs[|configs| - 1].name == name {
    } else {
      NoneNamed(configs[..|configs| - 1], name);
      var x :| 0 <= x < |configs| - 1 && configs[..|configs| - 1][x].name == name;
      assert configs[x].name == name;
    }
  }

  /** The configurations that leave the size open, by their places. */
  function OpenSizes(configs: seq<KeyspaceConfig>): set<nat> {
    set x: nat | x < |configs| && configs[x].capacityMb.None?
  }

  lemma {:induction false} AutoConfigsCounts(configs: seq<KeyspaceConfig>)
    ensures AutoConfigs(configs) == |OpenSizes(configs)|
  {
    if configs == [] {
      assert OpenSizes(configs) == {};
    } else {
      var n := |configs| - 1;
      AutoConfigsCounts(configs[..n]);
      assert OpenSizes(configs) == OpenSizes(configs[..n]) + if configs[n].capacityMb.None? then {n} else {};
    }
  }

  /**
   What every keyspace of a node is built with: its last configuration's sample
   and time to live, and either that configuration's size, in MiB, or an equal
   share, with all that leave theirs open, of what the ceiling gives.
   */
  lemma BuiltExactly(configs: seq<KeyspaceConfig>, limit: Option<nat>, keyspaces: map<Blob, Built>, name: Blob)
    requires IsBuilt(configs, limit, keyspaces)
    ensures name in keyspaces <==> exists i :: 0 <= i < |configs| && configs[i].name == name
    ensures name in keyspaces ==>
              exists i :: 0 <= i < |configs| && configs[i].name == name
                          && (forall x :: i < x < |configs| ==> configs[x].name != name)
                          && var k, built := configs[i], keyspaces[name];
                             && built.evictSample == k.evictSample && built.defaultTtlSecs == k.defaultTtlSecs
                             && built.capacityBytes ==
                                match k.capacityMb
                                case Some(mb) => mb * 1048576 % 0x1_0000_0000_0000_0000
                                case None => Resolve(None, limit).bytes / Max(|OpenSizes(configs)|, 1)
  {
    hide OpenSizes, AutoCapacity, LastNamed, AutoConfigs, BuiltFrom;
    AutoConfigsCounts(configs);
    if name in keyspaces {
      NoneNamed(configs, name);
      var i := LastNamedAt(configs, name);
      BuiltFromExactly(configs[i], Max(AutoConfigs(configs), 1), limit);
    } else if exists i :: 0 <= i < |configs| && configs[i].name == name {
      var i := LastNamedAt(configs, name);
    }
  }

  lemma BuiltFromExactly(k: KeyspaceConfig, n: nat, limit: Option<nat>)
    requires n > 0
    ensures var built := BuiltFrom(k, n, limit);
            && built.evictSample == k.evictSample && built.defaultTtlSecs == k.defaultTtlSecs
            && built.capacityBytes ==
               match k.capacityMb
               case Some(mb) => mb * 1048576 % 0x1_0000_0000_0000_0000
               case None => Resolve(None, limit).bytes / n
  {
    hide AutoCapacity;
  }

  /** The budgets of the auto-sized keyspaces among the configurations, added up. */
  function AutoTotal(configs: seq<KeyspaceConfig>, autoCount: nat, limit: Option<nat>): nat
    requires autoCount > 0
  {
    if configs == [] then 0
    else
      var k := configs[|configs| - 1];
      AutoTotal(configs[..|configs| - 1], autoCount, limit)
      + if k.capacityMb.None? then BuiltFrom(k, autoCount, limit).capacityBytes else 0
  }

  lemma {:induction false} AutoTotalIs(configs: seq<KeyspaceConfig>, autoCount: nat, limit: Option<nat>)
    requires autoCount > 0
    ensures AutoTotal(configs, autoCount, limit) == AutoConfigs(configs) * (Resolve(None, limit).bytes / autoCount)
  {
    if configs == [] {
    } else {
      hide Resolve;
      AutoTotalIs(configs[..|configs| - 1], autoCount, limit);
      Distribute(AutoConfigs(configs[..|configs| - 1]), 1, Resolve(None, limit).bytes / autoCount);
    }
  }

  lemma ShareFits(count: nat, n: nat, bytes: nat)
    requires count <= n && n > 0
    ensures count * (bytes / n) <= bytes
  {
    var q := bytes / n;
    assert n * q + bytes % n == bytes;
    TimesMonotone(count, n, q);
  }

  /** However many keyspaces size themselves, together they take one budget and leave the headroom. */
  lemma AutoKeyspacesShareOneBudget(configs: seq<KeyspaceConfig>, limit: nat)
    requires Resolve(None, Some(limit)).source == Auto
    ensures AutoTotal(configs, Max(AutoConfigs(configs), 1), Some(limit)) + 268435456 <= limit
  {
    hide Resolve, AutoConfigs, AutoTotal;
    var n := Max(AutoConfigs(configs), 1);
    HeadroomExactly(limit);
    AutoTotalIs(configs, n, Some(limit));
    ShareFits(AutoConfigs(configs), n, Resolve(None, Some(limit)).bytes);
  }
}
