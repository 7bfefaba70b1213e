/**
 What an observer of one shard sees, in the order the shard's lock settles it,
 and the flat lossy map that history describes.
 */
module History {
  import opened Entries
  import opened ShardSpec

  datatype Cell = Cell(value: Value, expiresAt: nat) {
    predicate IsExpired(now: nat) {
      expiresAt != 0 && now >= expiresAt
    }
  }

  type Flat = map<Key, Cell>

  datatype Event =
    | Put(key: Key, value: Value, expiresAt: nat)
    | Del(key: Key, found: bool)
    | Lost(key: Key, cause: Cause, now: nat)
    | Hit(key: Key, value: Value, now: nat)
    | Miss(key: Key, now: nat)

  /** The table with its access stamps forgotten. */
  function Cells(m: Table): Flat {
    map k | k in m :: Cell(m[k].value, m[k].expiresAt)
  }

  /** What one event does to a flat map. */
  function Effect(f: Flat, e: Event): Flat {
    match e
    case Put(k, v, exp) => f[k := Cell(v, exp)]
    case Del(k, _) => f - {k}
    case Lost(k, _, _) => f - {k}
    case Hit(_, _, _) => f
    case Miss(_, _) => f
  }

  /**
   When a flat map that may lose entries can show an event: a hit serves the
   present unexpired value, a miss finds nothing that could be served, an
   Expired loss takes an expired entry and an Evicted one a live one.
   */
  predicate Allowed(f: Flat, e: Event) {
    match e
    case Put(_, _, _) => true
    case Del(k, found) => found == (k in f)
    case Lost(k, cause, now) => k in f && (cause == Expired <==> f[k].IsExpired(now))
    case Hit(k, v, now) => k in f && f[k].value == v && !f[k].IsExpired(now)
    case Miss(k, now) => k !in f || f[k].IsExpired(now)
  }

  function Replay(trace: seq<Event>): Flat {
    if trace == [] then map[] else Effect(Replay(Init(trace)), Last(trace))
  }

  predicate Legal(trace: seq<Event>) {
    trace == [] || (Legal(Init(trace)) && Allowed(Replay(Init(trace)), Last(trace)))
  }

  lemma Extend(trace: seq<Event>, e: Event)
    requires Legal(trace) && Allowed(Replay(trace), e)
    ensures Legal(trace + [e]) && Replay(trace + [e]) == Effect(Replay(trace), e)
  {
    assert Init(trace + [e]) == trace && Last(trace + [e]) == e;
  }

  lemma {:induction false} LegalPrefix(trace: seq<Event>, n: nat)
    requires Legal(trace) && n <= |trace|
    ensures Legal(trace[..n])
    ensures n < |trace| ==> Allowed(Replay(trace[..n]), trace[n])
    ensures n < |trace| ==> Replay(trace[..n + 1]) == Effect(Replay(trace[..n]), trace[n])
  {
    if n == |trace| {
      assert trace[..n] == trace;
    } else if n == |trace| - 1 {
      assert trace[..n] == Init(trace) && trace[..n + 1] == trace;
    } else {
      LegalPrefix(Init(trace), n);
      assert Init(trace)[..n] == trace[..n] && Init(trace)[..n + 1] == trace[..n + 1];
    }
  }

  /** An event that changes what is under `k`. */
  predicate Touches(e: Event, k: Key) {
    match e
    case Put(x, _, _) => x == k
    case Del(x, _) => x == k
    case Lost(x, _, _) => x == k
    case Hit(_, _, _) => false
    case Miss(_, _) => false
  }

  /** Events that do not touch `k` leave what is under it. */
  lemma {:induction false} Untouched(trace: seq<Event>, i: nat, n: nat, k: Key)
    requires Legal(trace) && i <= n <= |trace|
    requires forall j :: i <= j < n ==> !Touches(trace[j], k)
    ensures k in Replay(trace[..n]) <==> k in Replay(trace[..i])
    ensures k in Replay(trace[..n]) ==> Replay(trace[..n])[k] == Replay(trace[..i])[k]
  {
    if i == n {
    } else {
      Untouched(trace, i, n - 1, k);
      LegalPrefix(trace, n - 1);
    }
  }

  /** Whatever is under `k` was put there by the last event that touched it. */
  lemma {:induction false} PresentWasPut(trace: seq<Event>, n: nat, k: Key) returns (j: nat)
    requires Legal(trace) && n <= |trace| && k in Replay(trace[..n])
    ensures j < n && trace[j] == Put(k, Replay(trace[..n])[k].value, Replay(trace[..n])[k].expiresAt)
    ensures forall i :: j < i < n ==> !Touches(trace[i], k)
  {
    LegalPrefix(trace, n - 1);
    if Touches(trace[n - 1], k) {
      j := n - 1;
    } else {
      j := PresentWasPut(trace, n - 1, k);
    }
  }

  /**
   A get never lies: a hit serves exactly the value of the latest put of its
   key, not deleted, evicted or expired since, and not past its expiry at the
   clock that get read.
   */
  lemma HitServesLatestPut(trace: seq<Event>, n: nat) returns (j: nat, expiresAt: nat)
    requires Legal(trace) && n < |trace| && trace[n].Hit?
    ensures j < n && trace[j] == Put(trace[n].key, trace[n].value, expiresAt)
    ensures forall i :: j < i < n ==> !Touches(trace[i], trace[n].key)
    ensures expiresAt == 0 || trace[n].now < expiresAt
  {
    LegalPrefix(trace, n);
    j := PresentWasPut(trace, n, trace[n].key);
    expiresAt := trace[j].expiresAt;
  }

  /**
   A get never forgets for nothing: when it misses a key that was put, either
   something took the entry away since, or its expiry had passed at that get's
   clock.
   */
  lemma MissHasReason(trace: seq<Event>, j: nat, n: nat)
    requires Legal(trace) && j < n < |trace| && trace[j].Put? && trace[n].Miss? && trace[j].key == trace[n].key
    requires forall i :: j < i < n ==> !Touches(trace[i], trace[n].key)
    ensures trace[j].expiresAt != 0 && trace[n].now >= trace[j].expiresAt
  {
    LegalPrefix(trace, j);
    LegalPrefix(trace, n);
    Untouched(trace, j + 1, n, trace[n].key);
  }
}
