/**
 The engine behind the wire protocol: a node whose keyspaces are sharded engines,
 as the backend of the connection loop.
 */
module Service {
  import opened Arithmetic
  import opened Bytes
  import opened Entries
  import opened ShardSpec
  import opened Eviction
  import opened ShardRuns
  import opened EngineRuns
  import opened Protocol
  import opened Dispatch
  import opened Conn
  import opened Chunking
  import H = History
  import K = Keyspace

  /** How a keyspace was built. */
  datatype Settings = Settings(capacity: nat, sample: nat, hash: Key -> nat, defaultTtlMs: nat)

  /**
   What a connection does not decide: how the keyspaces were built and, for each
   request by its number, the clock readings it takes and the victims its
   eviction finds.
   */
  datatype World = World(
    settings: Blob -> Settings,
    clock: nat -> nat,
    evictClock: nat -> nat,
    victims: nat -> seq<Removal>)

  /** The engine of each keyspace. */
  type Node = map<Blob, EngineState>

  function Home(w: World, ks: Blob, e: EngineState, k: Key): (idx: nat)
    requires e.shards != []
    ensures idx < |e.shards|
  {
    w.settings(ks).hash(k) % |e.shards|
  }

  predicate Present(st: Node, ks: Blob) {
    ks in st && st[ks].shards != []
  }

  /** A keyspace with one of its shards changed. */
  function Change(st: Node, ks: Blob, idx: nat, s: State): Node
    requires Present(st, ks) && idx < |st[ks].shards|
  {
    st[ks := st[ks].(shards := st[ks].shards[idx := s])]
  }

  /** The victims of a pass: those the world names if a pass can find them, and otherwise some that it can. */
  ghost function Victims(w: World, i: nat, s: State, capacity: nat, sample: nat): (removed: seq<Removal>)
    ensures Removable(s, removed)
    ensures Evicts(s, capacity, sample, w.evictClock(i), w.victims(i)) ==> removed == w.victims(i)
  {
    var now := w.evictClock(i);
    if Evicts(s, capacity, sample, now, w.victims(i)) then w.victims(i)
    else if exists r :: Evicts(s, capacity, sample, now, r) then
      var r :| Evicts(s, capacity, sample, now, r); r
    else []
  }

  /** The expiry a wire SET gives: the keyspace's own. */
  function WireExpiry(w: World, i: nat, ks: Blob): nat {
    K.ExpiresAt(w.clock(i), None, w.settings(ks).defaultTtlMs)
  }

  ghost function AfterPut(w: World, i: nat, ks: Blob, s: State, k: Key, v: Value): State {
    var stored := Stored(s, k, v, WireExpiry(w, i, ks));
    var removed := Victims(w, i, stored, w.settings(ks).capacity, w.settings(ks).sample);
    Counted(DropAll(stored, removed), removed)
  }

  ghost function PutAt(w: World, st: Node, i: nat, ks: Blob, k: Blob, v: Blob): Node {
    if !Present(st, ks) then st
    else
      var idx := Home(w, ks, st[ks], k);
      Change(st, ks, idx, AfterPut(w, i, ks, st[ks].shards[idx], k, v))
  }

  function GetAt(w: World, st: Node, i: nat, ks: Blob, k: Blob): (Node, Option<Blob>) {
    if !Present(st, ks) then (st, None)
    else
      var idx := Home(w, ks, st[ks], k);
      var (s, found) := Lookup(st[ks].shards[idx], k, w.clock(i));
      (Change(st, ks, idx, s), found.answer)
  }

  function DelAt(w: World, st: Node, ks: Blob, k: Blob): Node {
    if !Present(st, ks) then st
    else
      var idx := Home(w, ks, st[ks], k);
      Change(st, ks, idx, Remove(st[ks].shards[idx], k).0)
  }

  ghost function EngineBackend(w: World): Backend<Node> {
    Backend(
      (st: Node, i: nat, ks: Blob, k: Blob) => GetAt(w, st, i, ks, k),
      (st: Node, i: nat, ks: Blob, k: Blob, v: Blob) => PutAt(w, st, i, ks, k, v),
      (st: Node, i: nat, ks: Blob, k: Blob) => DelAt(w, st, ks, k))
  }

  // ---- the engine as an engine that may lose things ----

  function CellIn(s: State, k: Key): Option<H.Cell> {
    if k in s.entries then Some(H.Cell(s.entries[k].value, s.entries[k].expiresAt)) else None
  }

  function CellAt(w: World, st: Node, ks: Blob, k: Blob): Option<H.Cell> {
    if Present(st, ks) then CellIn(st[ks].shards[Home(w, ks, st[ks], k)], k) else None
  }

  function ValueAt(w: World, st: Node, ks: Blob, k: Blob): Option<Blob> {
    var cell := CellAt(w, st, ks, k);
    if cell.Some? then Some(cell.value.value) else None
  }

  function CellsOf(w: World): Holds<Node, H.Cell> {
    (st: Node, ks: Blob, k: Blob) => CellAt(w, st, ks, k)
  }

  function ValuesOf(w: World): Holds<Node, Blob> {
    (st: Node, ks: Blob, k: Blob) => ValueAt(w, st, ks, k)
  }

  /** What each call leaves under a key of its own shard. */
  lemma AfterPutCell(w: World, i: nat, ks: Blob, s: State, k: Key, v: Value, x: Key)
    ensures var t := AfterPut(w, i, ks, s, k, v);
            if x == k then Fades(Some(H.Cell(v, WireExpiry(w, i, ks))), CellIn(t, x))
            else Fades(CellIn(s, x), CellIn(t, x))
  {
    hide Evicts, Removable, Victims, WireExpiry, DropAll;
  }

  lemma AfterGetCell(s: State, k: Key, now: nat, x: Key)
    ensures var (t, found) := Lookup(s, k, now);
            && Fades(CellIn(s, x), CellIn(t, x))
            && found.answer == match CellIn(s, k)
                               case Some(cell) => if cell.IsExpired(now) then None else Some(cell.value)
                               case None => None
  {
  }

  lemma AfterDelCell(s: State, k: Key, x: Key)
    ensures var t := Remove(s, k).0;
            && CellIn(t, k) == None && (x != k ==> CellIn(t, x) == CellIn(s, x))
  {
  }

  /** Changing the home of one key fades no key of another shard or keyspace. */
  lemma ChangedCell(w: World, st: Node, ks: Blob, k: Key, s: State, x: Blob, y: Blob)
    requires Present(st, ks)
    ensures var idx := Home(w, ks, st[ks], k);
            CellAt(w, Change(st, ks, idx, s), x, y)
            == if x == ks && Home(w, ks, st[ks], y) == idx then CellIn(s, y) else CellAt(w, st, x, y)
  {
    hide CellIn;
  }

  lemma GetCells(w: World, st: Node, i: nat, ks: Blob, k: Blob, x: Blob, y: Blob)
    ensures Fades(CellAt(w, st, x, y), CellAt(w, GetAt(w, st, i, ks, k).0, x, y))
    ensures GetAt(w, st, i, ks, k).1 == match CellAt(w, st, ks, k)
                                        case Some(cell) => if cell.IsExpired(w.clock(i)) then None else Some(cell.value)
                                        case None => None
  {
    hide Lookup, CellIn, Change, Home;
    if Present(st, ks) {
      var s := st[ks].shards[Home(w, ks, st[ks], k)];
      AfterGetCell(s, k, w.clock(i), y);
      ChangedCell(w, st, ks, k, Lookup(s, k, w.clock(i)).0, x, y);
    }
  }

  lemma PutCells(w: World, st: Node, i: nat, ks: Blob, k: Blob, v: Blob, x: Blob, y: Blob)
    ensures (x, y) != (ks, k) ==> Fades(CellAt(w, st, x, y), CellAt(w, PutAt(w, st, i, ks, k, v), x, y))
    ensures Fades(Some(H.Cell(v, WireExpiry(w, i, ks))), CellAt(w, PutAt(w, st, i, ks, k, v), ks, k))
  {
    hide AfterPut, CellIn, Change, Home, WireExpiry;
    if Present(st, ks) {
      var s := st[ks].shards[Home(w, ks, st[ks], k)];
      AfterPutCell(w, i, ks, s, k, v, y);
      AfterPutCell(w, i, ks, s, k, v, k);
      ChangedCell(w, st, ks, k, AfterPut(w, i, ks, s, k, v), x, y);
      ChangedCell(w, st, ks, k, AfterPut(w, i, ks, s, k, v), ks, k);
    }
  }

  lemma DelCells(w: World, st: Node, ks: Blob, k: Blob, x: Blob, y: Blob)
    ensures (x, y) != (ks, k) ==> Fades(CellAt(w, st, x, y), CellAt(w, DelAt(w, st, ks, k), x, y))
    ensures CellAt(w, DelAt(w, st, ks, k), ks, k) == None
  {
    hide Remove, CellIn, Change, Home;
    if Present(st, ks) {
      var s := st[ks].shards[Home(w, ks, st[ks], k)];
      AfterDelCell(s, k, y);
      ChangedCell(w, st, ks, k, Remove(s, k).0, x, y);
      ChangedCell(w, st, ks, k, Remove(s, k).0, ks, k);
    }
  }

  lemma EngineKeeps(w: World)
    ensures Keeps(EngineBackend(w), CellsOf(w))
  {
    hide GetAt, PutAt, DelAt, CellAt, Fades;
    forall st, i, ks, k, x, y
      ensures Fades(CellAt(w, st, x, y), CellAt(w, GetAt(w, st, i, ks, k).0, x, y))
    {
      GetCells(w, st, i, ks, k, x, y);
    }
    forall st, i, ks, k, v, x, y | (x, y) != (ks, k)
      ensures Fades(CellAt(w, st, x, y), CellAt(w, PutAt(w, st, i, ks, k, v), x, y))
    {
      PutCells(w, st, i, ks, k, v, x, y);
    }
    forall st, ks, k, x, y | (x, y) != (ks, k)
      ensures Fades(CellAt(w, st, x, y), CellAt(w, DelAt(w, st, ks, k), x, y))
    {
      DelCells(w, st, ks, k, x, y);
    }
  }

  /** The engine does nothing worse than lose values. */
  lemma EngineLossy(w: World)
    ensures Lossy(EngineBackend(w), ValuesOf(w))
  {
    ValuesKeep(w);
    hide GetAt, PutAt, DelAt, CellAt, WireExpiry, Keeps;
    forall st, i, ks, k
      ensures Fades(ValueAt(w, st, ks, k), GetAt(w, st, i, ks, k).1)
    {
      GetCells(w, st, i, ks, k, ks, k);
    }
    forall st, i, ks, k, v
      ensures Fades(Some(v), ValueAt(w, PutAt(w, st, i, ks, k, v), ks, k))
    {
      PutCells(w, st, i, ks, k, v, ks, k);
    }
    forall st, ks, k
      ensures ValueAt(w, DelAt(w, st, ks, k), ks, k) == None
    {
      DelCells(w, st, ks, k, ks, k);
    }
  }

  lemma ValuesKeep(w: World)
    ensures Keeps(EngineBackend(w), ValuesOf(w))
  {
    hide GetAt, PutAt, DelAt, CellAt;
    forall st, i, ks, k, x, y
      ensures Fades(ValueAt(w, st, x, y), ValueAt(w, GetAt(w, st, i, ks, k).0, x, y))
    {
      GetCells(w, st, i, ks, k, x, y);
    }
    forall st, i, ks, k, v, x, y | (x, y) != (ks, k)
      ensures Fades(ValueAt(w, st, x, y), ValueAt(w, PutAt(w, st, i, ks, k, v), x, y))
    {
      PutCells(w, st, i, ks, k, v, x, y);
    }
    forall st, ks, k, x, y | (x, y) != (ks, k)
      ensures Fades(ValueAt(w, st, x, y), ValueAt(w, DelAt(w, st, ks, k), x, y))
    {
      DelCells(w, st, ks, k, x, y);
    }
  }

  // ---- a SET and a GET over the wire ----

  /** What the engine can hold under a key from its last write on. */
  lemma HeldSince(w: World, c: Config, p: Progress<Node>, rs: seq<Request>, i: nat, j: nat, ks: Blob, k: Blob)
    requires p.authed && ReadsAfter(c, rs, i, j, ks, k)
    ensures var put := H.Cell(rs[i].value, WireExpiry(w, p.served + i, ks));
            Fades(if rs[i].op == OP_SET then Some(put) else None,
                  CellAt(w, RunAll(c, EngineBackend(w), p, rs[..j]).store, ks, k))
  {
    hide RunAll, Serve, Answer, Keeps, Rejects, Resolve, CellAt, GetAt, PutAt, DelAt, WireExpiry;
    var b := EngineBackend(w);
    EngineKeeps(w);
    AuthLatches(c, b, p, rs[..i]);
    RunLast(c, b, p, rs, i);
    OneResponseEach(c, b, p, rs[..i]);
    var before := RunAll(c, b, p, rs[..i]);
    ServedBy(c, b, before, rs[i], ks, k);
    KeptThrough(c, b, CellsOf(w), p, rs, i + 1, j, ks, k);
    if rs[i].op == OP_SET {
      PutCells(w, before.store, before.served, ks, k, rs[i].value, ks, k);
    } else {
      DelCells(w, before.store, ks, k, ks, k);
    }
  }

  /**
   From the wire to the table and back: a GET that follows the last write of its
   key on a connection is answered, after a SET, with exactly that value if the
   engine still holds it and its time to live has not ended at the clock the GET
   reads, and with NotFound otherwise; after a DEL with NotFound.
   */
  lemma GetOverWire(w: World, c: Config, p: Progress<Node>, rs: seq<Request>, i: nat, j: nat, ks: Blob, k: Blob)
    requires p.authed && ReadsAfter(c, rs, i, j, ks, k)
    requires K.InRange(w.clock(p.served + i), None, w.settings(ks).defaultTtlMs)
    ensures |Responses(c, EngineBackend(w), p, rs)| == |rs|
    ensures var reply := Responses(c, EngineBackend(w), p, rs)[j];
            var held := CellAt(w, RunAll(c, EngineBackend(w), p, rs[..j]).store, ks, k);
            var ttl, put, now := w.settings(ks).defaultTtlMs, w.clock(p.served + i), w.clock(p.served + j);
            var ended := ttl > 0 && now >= Min(put + ttl, 0xffff_ffff_ffff_ffff);
            && (rs[i].op == OP_SET && held.Some? && !ended ==> reply == ValueShared(rs[i].value))
            && (rs[i].op != OP_SET || held.None? || ended ==> reply == NotFound)
  {
    hide RunAll, Responses, Serve, Answer, Rejects, Resolve, CellAt, GetAt, PutAt, DelAt, K.InRange, WireExpiry;
    var b := EngineBackend(w);
    HeldSince(w, c, p, rs, i, j, ks, k);
    OneResponseEach(c, b, p, rs);
    ResponseAt(c, b, p, rs, j);
    AuthLatches(c, b, p, rs[..j]);
    OneResponseEach(c, b, p, rs[..j]);
    var at := RunAll(c, b, p, rs[..j]);
    ServedBy(c, b, at, rs[j], ks, k);
    GetCells(w, at.store, at.served, ks, k, ks, k);
    WireExpiryExactly(w, p.served + i, ks);
  }

  lemma WireExpiryExactly(w: World, i: nat, ks: Blob)
    requires K.InRange(w.clock(i), None, w.settings(ks).defaultTtlMs)
    ensures var ttl := w.settings(ks).defaultTtlMs;
            WireExpiry(w, i, ks) == if ttl == 0 then 0 else Min(w.clock(i) + ttl, 0xffff_ffff_ffff_ffff)
    ensures w.settings(ks).defaultTtlMs > 0 ==> WireExpiry(w, i, ks) > 0
  {
    hide K.U128_MAX;
    K.ExpiryExactly(w.clock(i), None, w.settings(ks).defaultTtlMs);
  }

  // ---- every call is a step of a real engine ----

  /** Every keyspace is an engine with exact counters, within budget. */
  ghost predicate Sound(w: World, st: Node) {
    forall ks :: ks in st ==>
      Healthy(w.settings(ks).capacity, st[ks]) && st[ks].shards != [] && w.settings(ks).sample >= 1
  }

  /** Over budget there is always something for a round to pick. */
  lemma SomethingToPick(s: State, capacity: nat, sample: nat, now: nat) returns (r: Removal)
    requires Exact(s) && s.bytes > capacity && sample >= 1
    ensures r.key in s.entries && CanPick(s.entries, sample, now, r)
  {
    EmptyIsFree(s);
    var w := SomeWindow(s.entries, sample);
    if i :| 0 <= i < |w| && s.entries[w[i]].IsExpired(now) {
      var first := FirstExpired(s.entries, w, now, i);
      r := Removal(w[first], Expired);
      assert PickedAt(s.entries, now, w, first, Expired);
    } else {
      var oldest := FirstOldest(s.entries, w, |w|);
      r := Removal(w[oldest], Evicted);
      assert PickedAt(s.entries, now, w, oldest, Evicted);
    }
  }

  lemma {:induction false} FirstExpired(m: Table, w: seq<Key>, now: nat, i: nat) returns (first: nat)
    requires forall j :: 0 <= j < |w| ==> w[j] in m
    requires i < |w| && m[w[i]].IsExpired(now)
    ensures first < |w| && m[w[first]].IsExpired(now) && forall j :: 0 <= j < first ==> !m[w[j]].IsExpired(now)
  {
    if j :| 0 <= j < i && m[w[j]].IsExpired(now) {
      first := FirstExpired(m, w, now, j);
    } else {
      first := i;
    }
  }

  lemma {:induction false} FirstOldest(m: Table, w: seq<Key>, n: nat) returns (oldest: nat)
    requires forall j :: 0 <= j < |w| ==> w[j] in m
    requires 0 < n <= |w|
    ensures oldest < n
    ensures forall j :: 0 <= j < oldest ==> m[w[j]].lastAccess > m[w[oldest]].lastAccess
    ensures forall j :: oldest < j < n ==> m[w[j]].lastAccess >= m[w[oldest]].lastAccess
  {
    if n == 1 {
      oldest := 0;
    } else {
      oldest := FirstOldest(m, w, n - 1);
      if m[w[n - 1]].lastAccess < m[w[oldest]].lastAccess {
        oldest := n - 1;
      }
    }
  }

  lemma SomeWindow(m: Table, sample: nat) returns (w: seq<Key>)
    requires m != map[] && sample >= 1
    ensures IsWindow(m, sample, w) && w != []
  {
    w := SomeKeys(m, if sample <= |m| then sample else |m|);
  }

  /** A pass can always be completed: there are victims to be found. */
  lemma {:induction false} PassExists(s: State, capacity: nat, sample: nat, now: nat, removed: seq<Removal>)
    returns (all: seq<Removal>)
    requires Exact(s) && sample >= 1
    requires Removable(s, removed) && Rounds(s, capacity, sample, now, removed)
    ensures Evicts(s, capacity, sample, now, all)
    decreases DropAll(s, removed).entries.Keys
  {
    hide CanPick, Removable, Rounds, DropAll, TotalRam, TtlKeys;
    DropAllKeeps(s, removed);
    var mid := DropAll(s, removed);
    if mid.bytes <= capacity {
      all := removed;
    } else {
      var r := SomethingToPick(mid, capacity, sample, now);
      RoundsExtend(s, capacity, sample, now, removed, r);
      assert DropAll(s, removed + [r]).entries.Keys < mid.entries.Keys;
      all := PassExists(s, capacity, sample, now, removed + [r]);
    }
  }

  lemma VictimsAreFound(w: World, i: nat, s: State, capacity: nat, sample: nat)
    requires Exact(s) && sample >= 1
    ensures Evicts(s, capacity, sample, w.evictClock(i), Victims(w, i, s, capacity, sample))
  {
    hide Evicts;
    EvictsNothing(s, capacity, sample, w.evictClock(i));
    var all := PassExists(s, capacity, sample, w.evictClock(i), []);
  }

  /** What one call does to the shard it reaches is one operation of that shard. */
  lemma PutIsStep(w: World, st: Node, i: nat, ks: Blob, k: Blob, v: Blob)
    requires Sound(w, st) && ks in st
    ensures var idx, t := w.settings(ks).hash(k) % |st[ks].shards|, PutAt(w, st, i, ks, k, v);
            var stored := Stored(st[ks].shards[idx], k, v, WireExpiry(w, i, ks));
            var removed := Victims(w, i, stored, w.settings(ks).capacity, w.settings(ks).sample);
            && t.Keys == st.Keys && (forall x :: x in st && x != ks ==> t[x] == st[x])
            && EngineStep(w.settings(ks).capacity, w.settings(ks).sample, st[ks],
                          On(idx, Op.Insert(k, v, WireExpiry(w, i, ks), w.evictClock(i), removed)), t[ks])
  {
    hide Evicts, Removable, DropAll, Update, Counted, Victims, WireExpiry, Exact, Stamped;
    var s := st[ks].shards[Home(w, ks, st[ks], k)];
    InsertKeeps(s, k, v, WireExpiry(w, i, ks));
    VictimsAreFound(w, i, Stored(s, k, v, WireExpiry(w, i, ks)), w.settings(ks).capacity, w.settings(ks).sample);
  }

  lemma GetIsStep(w: World, st: Node, i: nat, ks: Blob, k: Blob)
    requires Sound(w, st) && ks in st
    ensures var idx, t := w.settings(ks).hash(k) % |st[ks].shards|, GetAt(w, st, i, ks, k).0;
            && t.Keys == st.Keys && (forall x :: x in st && x != ks ==> t[x] == st[x])
            && EngineStep(w.settings(ks).capacity, w.settings(ks).sample, st[ks], On(idx, Op.Get(k, w.clock(i))), t[ks])
  {
    hide Lookup;
  }

  lemma DelIsStep(w: World, st: Node, ks: Blob, k: Blob)
    requires Sound(w, st) && ks in st
    ensures var idx, t := w.settings(ks).hash(k) % |st[ks].shards|, DelAt(w, st, ks, k);
            && t.Keys == st.Keys && (forall x :: x in st && x != ks ==> t[x] == st[x])
            && EngineStep(w.settings(ks).capacity, w.settings(ks).sample, st[ks], On(idx, Op.Delete(k)), t[ks])
  {
    hide Remove;
  }

  /** A step of one keyspace's engine keeps the node sound. */
  lemma StepSound(w: World, st: Node, ks: Blob, op: EngineOp, t: Node)
    requires Sound(w, st) && ks in st && t.Keys == st.Keys && forall x :: x in st && x != ks ==> t[x] == st[x]
    requires EngineStep(w.settings(ks).capacity, w.settings(ks).sample, st[ks], op, t[ks])
    ensures Sound(w, t)
  {
    hide EngineStep, Healthy;
    HealthyStep(w.settings(ks).capacity, w.settings(ks).sample, st[ks], op, t[ks]);
  }

  lemma AnswerSound(w: World, c: Config, p: Progress<Node>, r: Request)
    requires Sound(w, p.store)
    ensures Sound(w, Answer(c, EngineBackend(w), p, r).store)
  {
    hide Sound, Answer, EngineStep, GetAt, PutAt, DelAt, Resolve, Rejects, Victims, Home, WireExpiry, Stored;
    StoreAfter(c, EngineBackend(w), p, r);
    if IsKv(r) && !Rejects(c, r) && Resolve(c, r.keyspace).Some? {
      var ks, st := Resolve(c, r.keyspace).value, p.store;
      CallsSound(w, st, p.served, ks, r.key, r.value);
    }
  }

  lemma CallsSound(w: World, st: Node, i: nat, ks: Blob, k: Blob, v: Blob)
    requires Sound(w, st)
    ensures Sound(w, GetAt(w, st, i, ks, k).0) && Sound(w, PutAt(w, st, i, ks, k, v)) && Sound(w, DelAt(w, st, ks, k))
  {
    if ks in st {
      GetIsStep(w, st, i, ks, k);
      PutIsStep(w, st, i, ks, k, v);
      DelIsStep(w, st, ks, k);
      hide EngineStep, GetAt, PutAt, DelAt, Victims, WireExpiry, Stored, Healthy;
      var idx := Home(w, ks, st[ks], k);
      var stored := Stored(st[ks].shards[idx], k, v, WireExpiry(w, i, ks));
      var removed := Victims(w, i, stored, w.settings(ks).capacity, w.settings(ks).sample);
      StepSound(w, st, ks, On(idx, Op.Get(k, w.clock(i))), GetAt(w, st, i, ks, k).0);
      StepSound(w, st, ks, On(idx, Op.Insert(k, v, WireExpiry(w, i, ks), w.evictClock(i), removed)),
                PutAt(w, st, i, ks, k, v));
      StepSound(w, st, ks, On(idx, Op.Delete(k)), DelAt(w, st, ks, k));
    }
  }

  lemma {:induction false} RunSound(w: World, c: Config, p: Progress<Node>, rs: seq<Request>)
    requires Sound(w, p.store)
    ensures Sound(w, RunAll(c, EngineBackend(w), p, rs).store)
    decreases |rs|
  {
    hide Sound, Answer, EngineBackend;
    if rs == [] {
    } else {
      AnswerSound(w, c, p, rs[0]);
      RunSound(w, c, Answer(c, EngineBackend(w), p, rs[0]), rs[1..]);
    }
  }

  /**
   Whatever bytes a connection is sent, well formed or not, however they are cut
   into reads and whatever its batch cap, every keyspace ends with exact counters
   and every shard of it within its budget.
   */
  lemma ConnectionKeepsBudgets(w: World, c: Config, cap: nat, p: Progress<Node>, chunks: seq<Blob>)
    requires cap > 0 && Sound(w, p.store) && forall i :: 0 <= i < |chunks| ==> chunks[i] != []
    ensures Sound(w, Loop(c, EngineBackend(w), cap, p, [], chunks).store)
  {
    hide Sound, EngineBackend, Frames, RunAll, Loop, Executed;
    ExecutesPrefix(c, EngineBackend(w), cap, p, [], chunks);
    var served := Frames([] + Concat(chunks)).batch[..Executed(cap, [], chunks)];
    RunSound(w, c, p, served);
  }
}
