/**
 What one request does: authentication, size caps, keyspace resolution and the
 key-value operation.  The engine behind a keyspace is any whatever: a Backend
 answers each request from its state and the request's ordinal number, which
 stands for the clock, eviction choices and other connections at that moment.
 */
module Dispatch {
  import opened Bytes
  import opened Protocol

  /** "cache" */
  const DEFAULT_KEYSPACE: Blob := [0x63, 0x61, 0x63, 0x68, 0x65]

  /** An empty `apiKey` turns authentication off; a zero limit disables it. */
  datatype Config = Config(apiKey: Blob, maxValue: nat, maxKey: nat, names: set<Blob>, utf8: Blob -> bool)

  datatype Backend<!S> = Backend(
    get: (S, nat, Blob, Blob) -> (S, Option<Blob>),
    put: (S, nat, Blob, Blob, Blob) -> S,
    del: (S, nat, Blob, Blob) -> S)

  predicate Rejects(c: Config, r: Request) {
    || (c.maxKey > 0 && |r.key| > c.maxKey)
    || (c.maxValue > 0 && r.op == OP_SET && |r.value| > c.maxValue)
  }

  predicate IsKv(r: Request) {
    r.op == OP_GET || r.op == OP_SET || r.op == OP_DEL
  }

  function NameStr(c: Config, name: Blob): Option<Blob> {
    if name == [] then Some(DEFAULT_KEYSPACE)
    else if c.utf8(name) then Some(name) else None
  }

  /** The keyspace a request's keyspace bytes resolve to, if the node has it. */
  function Resolve(c: Config, name: Blob): Option<Blob> {
    match NameStr(c, name)
    case Some(s) => if s in c.names then Some(s) else None
    case None => None
  }

  function DispatchKvOn<S>(b: Backend<S>, st: S, i: nat, ks: Blob, r: Request): (S, Response) {
    if r.op == OP_GET then
      var (t, v) := b.get(st, i, ks, r.key);
      (t, if v.Some? then ValueShared(v.value) else NotFound)
    else if r.op == OP_SET then (b.put(st, i, ks, r.key, r.value), Ok)
    else if r.op == OP_DEL then (b.del(st, i, ks, r.key), Ok)
    else (st, BadRequest)
  }

  function DispatchKv<S>(c: Config, b: Backend<S>, st: S, i: nat, r: Request): (S, Response) {
    if NameStr(c, r.keyspace).None? then (st, BadRequest)
    else if Resolve(c, r.keyspace).None? then (st, UnknownKeyspace)
    else DispatchKvOn(b, st, i, Resolve(c, r.keyspace).value, r)
  }

  function DispatchOne<S>(c: Config, b: Backend<S>, st: S, i: nat, r: Request): (S, Response) {
    if Rejects(c, r) then (st, BadRequest)
    else if r.op == OP_PING then (st, Pong)
    else if IsKv(r) then DispatchKv(c, b, st, i, r)
    else (st, BadRequest)
  }

  /** A connection between two requests, and everything it has sent. */
  datatype Progress<S> = Progress(store: S, authed: bool, served: nat, written: Blob, waits: seq<Blob>)

  /** A request on its own, the way the connection loop treats it. */
  function Serve<S>(c: Config, b: Backend<S>, p: Progress<S>, r: Request): (S, bool, Response) {
    if r.op == OP_AUTH then
      if r.value == c.apiKey then (p.store, true, Ok) else (p.store, p.authed, Unauthorized)
    else if !p.authed then (p.store, p.authed, Unauthorized)
    else if IsKv(r) && !Rejects(c, r) then
      match Resolve(c, r.keyspace)
      case Some(ks) =>
        var (st, reply) := DispatchKvOn(b, p.store, p.served, ks, r);
        (st, true, reply)
      case None => (p.store, true, UnknownKeyspace)
    else
      var (st, reply) := DispatchOne(c, b, p.store, p.served, r);
      (st, true, reply)
  }

  function Answer<S>(c: Config, b: Backend<S>, p: Progress<S>, r: Request): Progress<S> {
    var (st, authed, reply) := Serve(c, b, p, r);
    p.(store := st, authed := authed, served := p.served + 1, written := p.written + Reply(reply))
  }

  function RunAll<S>(c: Config, b: Backend<S>, p: Progress<S>, rs: seq<Request>): Progress<S>
    decreases |rs|
  {
    if rs == [] then p else RunAll(c, b, Answer(c, b, p, rs[0]), rs[1..])
  }

  /** The responses to a list of requests. */
  function Responses<S>(c: Config, b: Backend<S>, p: Progress<S>, rs: seq<Request>): seq<Response>
    decreases |rs|
  {
    if rs == [] then []
    else [Serve(c, b, p, rs[0]).2] + Responses(c, b, Answer(c, b, p, rs[0]), rs[1..])
  }

  lemma {:induction false} RunAppend<S>(c: Config, b: Backend<S>, p: Progress<S>, xs: seq<Request>, ys: seq<Request>)
    ensures RunAll(c, b, p, xs + ys) == RunAll(c, b, RunAll(c, b, p, xs), ys)
    decreases |xs|
  {
    hide Answer;
    if xs == [] {
      assert xs + ys == ys;
    } else {
      assert (xs + ys)[1..] == xs[1..] + ys && (xs + ys)[0] == xs[0];
      RunAppend(c, b, Answer(c, b, p, xs[0]), xs[1..], ys);
    }
  }

  lemma RunLast<S>(c: Config, b: Backend<S>, p: Progress<S>, rs: seq<Request>, n: nat)
    requires n < |rs|
    ensures RunAll(c, b, p, rs[..n + 1]) == Answer(c, b, RunAll(c, b, p, rs[..n]), rs[n])
  {
    hide Answer;
    assert rs[..n + 1] == rs[..n] + [rs[n]];
    RunAppend(c, b, p, rs[..n], [rs[n]]);
    var q := RunAll(c, b, p, rs[..n]);
    assert RunAll(c, b, q, [rs[n]]) == RunAll(c, b, Answer(c, b, q, rs[n]), []);
  }

  // ---- what each request is answered ----

  /** The keyspace a request means: the one it names, or "cache" if it names none. */
  function Named(r: Request): Blob {
    if r.keyspace == [] then [0x63, 0x61, 0x63, 0x68, 0x65] else r.keyspace
  }

  /**
   Every answer of an authenticated connection, by the numbers on the wire.  Over
   a cap that is set, on the key of any request or the value of a SET, it is
   BadRequest; a PING gets Pong; a GET, SET or DEL whose keyspace is not UTF-8 or
   not configured gets UnknownKeyspace, and any other is the engine call of its
   name on exactly that keyspace and key; every other number gets BadRequest.
   Nothing but that engine call touches the store.
   */
  lemma ServeExactly<S>(c: Config, b: Backend<S>, p: Progress<S>, r: Request)
    requires p.authed && r.op != 0x05
    ensures var (st, authed, reply) := Serve(c, b, p, r);
            var ks := Named(r);
            var tooBig := (c.maxKey > 0 && |r.key| > c.maxKey)
                          || (c.maxValue > 0 && r.op == 0x02 && |r.value| > c.maxValue);
            var known := (r.keyspace == [] || c.utf8(r.keyspace)) && ks in c.names;
            && authed
            && (tooBig ==> st == p.store && reply == BadRequest)
            && (!tooBig && r.op == 0x00 ==> st == p.store && reply == Pong)
            && (!tooBig && r.op in {0x01, 0x02, 0x03} && !known ==> st == p.store && reply == UnknownKeyspace)
            && (!tooBig && r.op == 0x01 && known ==>
                  var (t, v) := b.get(p.store, p.served, ks, r.key);
                  st == t && reply == if v.Some? then ValueShared(v.value) else NotFound)
            && (!tooBig && r.op == 0x02 && known ==>
                  st == b.put(p.store, p.served, ks, r.key, r.value) && reply == Ok)
            && (!tooBig && r.op == 0x03 && known ==> st == b.del(p.store, p.served, ks, r.key) && reply == Ok)
            && (r.op !in {0x00, 0x01, 0x02, 0x03} ==> st == p.store && reply == BadRequest)
  {
  }

  /** The one exception to all of it: plain dispatch calls a keyspace that is not UTF-8 a BadRequest. */
  lemma DispatchExactly<S>(c: Config, b: Backend<S>, st: S, i: nat, r: Request)
    requires !Rejects(c, r) && r.op in {0x01, 0x02, 0x03}
    ensures var (t, reply) := DispatchOne(c, b, st, i, r);
            && (r.keyspace != [] && !c.utf8(r.keyspace) ==> t == st && reply == BadRequest)
            && ((r.keyspace == [] || c.utf8(r.keyspace)) && Named(r) !in c.names ==>
                  t == st && reply == UnknownKeyspace)
            && ((r.keyspace == [] || c.utf8(r.keyspace)) && Named(r) in c.names ==>
                  (t, reply) == DispatchKvOn(b, st, i, Named(r), r))
  {
    hide DispatchKvOn;
  }

  // ---- one response per request, in order ----

  lemma {:induction false} RepliesPrepend(r: Response, rs: seq<Response>)
    ensures Replies([r] + rs) == Reply(r) + Replies(rs)
  {
    hide Reply;
    if rs == [] {
      assert [r] + rs == [r] && [r][..0] == [];
    } else {
      var n := |rs| - 1;
      RepliesPrepend(r, rs[..n]);
      assert ([r] + rs)[..n + 1] == [r] + rs[..n];
      assert Reply(r) + (Replies(rs[..n]) + Reply(rs[n])) == Reply(r) + Replies(rs[..n]) + Reply(rs[n]);
    }
  }

  /** Each request gets exactly one response, and they go out in request order. */
  lemma {:induction false} OneResponseEach<S>(c: Config, b: Backend<S>, p: Progress<S>, rs: seq<Request>)
    ensures |Responses(c, b, p, rs)| == |rs|
    ensures RunAll(c, b, p, rs).written == p.written + Replies(Responses(c, b, p, rs))
    ensures RunAll(c, b, p, rs).served == p.served + |rs|
    ensures RunAll(c, b, p, rs).waits == p.waits
    decreases |rs|
  {
    hide Serve, Reply;
    if rs != [] {
      var q := Answer(c, b, p, rs[0]);
      OneResponseEach(c, b, q, rs[1..]);
      RepliesPrepend(Serve(c, b, p, rs[0]).2, Responses(c, b, q, rs[1..]));
    } else {
      assert p.written + [] == p.written;
    }
  }

  /** The response to each request is that of serving it after all before it. */
  lemma {:induction false} ResponseAt<S>(c: Config, b: Backend<S>, p: Progress<S>, rs: seq<Request>, j: nat)
    requires j < |rs|
    ensures j < |Responses(c, b, p, rs)|
    ensures Responses(c, b, p, rs)[j] == Serve(c, b, RunAll(c, b, p, rs[..j]), rs[j]).2
    decreases |rs|
  {
    hide Serve, Answer;
    if j == 0 {
    } else {
      ResponseAt(c, b, Answer(c, b, p, rs[0]), rs[1..], j - 1);
      assert rs[..j][0] == rs[0] && rs[..j][1..] == rs[1..][..j - 1];
    }
  }

  /**
   What a client reads off the connection after any requests is, in order, the
   status and payload of the response to each, as long as no value is 4 GiB long.
   */
  lemma OutputReadsBack<S>(c: Config, b: Backend<S>, p: Progress<S>, rs: seq<Request>)
    requires p.written == []
    requires forall r :: r in Responses(c, b, p, rs) ==> Sendable(r)
    ensures ReadReplies(RunAll(c, b, p, rs).written) == (SawAll(Responses(c, b, p, rs)), [])
  {
    hide Serve, Reply, Responses, RunAll;
    OneResponseEach(c, b, p, rs);
    var out := Responses(c, b, p, rs);
    RepliesReadBack(out, []);
    assert ReadReplies([]) == ([], []);
    assert p.written + Replies(out) == Replies(out) + [];
    assert SawAll(out) + [] == SawAll(out);
  }

  // ---- authentication ----

  /** Authentication, once given, is never taken back. */
  lemma {:induction false} AuthLatches<S>(c: Config, b: Backend<S>, p: Progress<S>, rs: seq<Request>)
    requires p.authed
    ensures RunAll(c, b, p, rs).authed
    decreases |rs|
  {
    if rs == [] {
    } else {
      AuthLatches(c, b, Answer(c, b, p, rs[0]), rs[1..]);
    }
  }

  /** A request that presents the configured token. */
  predicate Presents(c: Config, r: Request) {
    r.op == OP_AUTH && r.value == c.apiKey
  }

  /**
   A connection becomes authenticated exactly when some request presents the
   token; until then every response is Unauthorized and no request reads or
   changes the store.
   */
  lemma {:induction false} NothingBeforeAuth<S>(c: Config, b: Backend<S>, p: Progress<S>, rs: seq<Request>)
    requires !p.authed
    ensures RunAll(c, b, p, rs).authed <==> exists i :: 0 <= i < |rs| && Presents(c, rs[i])
    ensures !RunAll(c, b, p, rs).authed ==>
              && RunAll(c, b, p, rs).store == p.store
              && forall r :: r in Responses(c, b, p, rs) ==> r == Unauthorized
    decreases |rs|
  {
    hide DispatchKvOn, DispatchOne, Resolve, Reply;
    if rs == [] {
    } else {
      var q := Answer(c, b, p, rs[0]);
      if Presents(c, rs[0]) {
        AuthLatches(c, b, q, rs[1..]);
      } else {
        NothingBeforeAuth(c, b, q, rs[1..]);
        assert forall i :: 0 < i < |rs| ==> rs[i] == rs[1..][i - 1];
      }
    }
  }

  /**
   Wherever it comes, an AUTH frame is answered Ok exactly when its token is the
   configured one and Unauthorized otherwise, and leaves the store alone.  An
   unauthenticated connection is then authenticated exactly if it was Ok, and an
   authenticated one, with authentication off from its start, stays so.
   */
  lemma AuthAnswers<S>(c: Config, b: Backend<S>, p: Progress<S>, rs: seq<Request>, i: nat)
    requires i < |rs| && rs[i].op == OP_AUTH
    ensures |Responses(c, b, p, rs)| == |rs|
    ensures var before, after := RunAll(c, b, p, rs[..i]), RunAll(c, b, p, rs[..i + 1]);
            && Responses(c, b, p, rs)[i] == (if Presents(c, rs[i]) then Ok else Unauthorized)
            && after.store == before.store
            && (after.authed <==> p.authed || exists x :: 0 <= x <= i && Presents(c, rs[x]))
  {
    hide RunAll, Responses, Reply;
    OneResponseEach(c, b, p, rs);
    ResponseAt(c, b, p, rs, i);
    RunLast(c, b, p, rs, i);
    var upTo := rs[..i + 1];
    if p.authed {
      AuthLatches(c, b, p, upTo);
    } else {
      NothingBeforeAuth(c, b, p, upTo);
      assert forall x :: 0 <= x <= i ==> upTo[x] == rs[x];
    }
  }

  // ---- the connection loop against plain dispatch ----

  /** A key-value request within the caps whose keyspace is not UTF-8. */
  predicate BadName(c: Config, r: Request) {
    IsKv(r) && !Rejects(c, r) && r.keyspace != [] && !c.utf8(r.keyspace)
  }

  /**
   The loop's own resolution agrees with plain dispatch on every request but
   one kind: where dispatch answers BadRequest to a keyspace that is not UTF-8,
   the loop answers UnknownKeyspace.  Neither touches the store then.
   */
  lemma ServeRefinesDispatch<S>(c: Config, b: Backend<S>, p: Progress<S>, r: Request)
    requires p.authed && r.op != OP_AUTH
    ensures var (st, authed, reply) := Serve(c, b, p, r);
            var (st', reply') := DispatchOne(c, b, p.store, p.served, r);
            && authed && st == st'
            && (BadName(c, r) ==> reply == UnknownKeyspace && reply' == BadRequest && st == p.store)
            && (!BadName(c, r) ==> reply == reply')
  {
    hide DispatchKvOn;
  }

  /** A request served with no memo: authentication first, then plain dispatch. */
  function PlainServe<S>(c: Config, b: Backend<S>, p: Progress<S>, r: Request): (S, bool, Response) {
    if r.op == OP_AUTH || !p.authed then Serve(c, b, p, r)
    else
      var (st, reply) := DispatchOne(c, b, p.store, p.served, r);
      (st, true, reply)
  }

  function PlainAnswer<S>(c: Config, b: Backend<S>, p: Progress<S>, r: Request): Progress<S> {
    var (st, authed, reply) := PlainServe(c, b, p, r);
    p.(store := st, authed := authed, served := p.served + 1, written := p.written + Reply(reply))
  }

  function PlainRun<S>(c: Config, b: Backend<S>, p: Progress<S>, rs: seq<Request>): Progress<S>
    decreases |rs|
  {
    if rs == [] then p else PlainRun(c, b, PlainAnswer(c, b, p, rs[0]), rs[1..])
  }

  function PlainResponses<S>(c: Config, b: Backend<S>, p: Progress<S>, rs: seq<Request>): seq<Response>
    decreases |rs|
  {
    if rs == [] then []
    else [PlainServe(c, b, p, rs[0]).2] + PlainResponses(c, b, PlainAnswer(c, b, p, rs[0]), rs[1..])
  }

  /** Two connections that agree on everything but the bytes sent. */
  predicate Alike<S(==)>(p: Progress<S>, q: Progress<S>) {
    p.store == q.store && p.authed == q.authed && p.served == q.served
  }

  /**
   A whole batch through the loop and through plain dispatch, one request at a
   time: the same effects on the store, and the same responses except
   UnknownKeyspace for BadRequest where a keyspace is not UTF-8.
   */
  lemma {:induction false} BatchRefinesDispatch<S>(c: Config, b: Backend<S>, p: Progress<S>, q: Progress<S>,
                                                   rs: seq<Request>)
    requires Alike(p, q)
    ensures Alike(RunAll(c, b, p, rs), PlainRun(c, b, q, rs))
    ensures var xs, ys := Responses(c, b, p, rs), PlainResponses(c, b, q, rs);
            && |xs| == |ys| == |rs|
            && forall i :: 0 <= i < |rs| ==>
                 xs[i] == ys[i] || (BadName(c, rs[i]) && xs[i] == UnknownKeyspace && ys[i] == BadRequest)
    decreases |rs|
  {
    hide DispatchOne, DispatchKvOn, Resolve, Rejects, Reply;
    if rs == [] {
    } else {
      var r := rs[0];
      if p.authed && r.op != OP_AUTH {
        ServeRefinesDispatch(c, b, p, r);
      }
      hide Serve, PlainServe;
      BatchRefinesDispatch(c, b, Answer(c, b, p, r), PlainAnswer(c, b, q, r), rs[1..]);
    }
  }

  // ---- what a client that knows only the wire can rely on ----

  /** What a store holds under a keyspace and a key, if anything. */
  type Holds<!S, C> = (S, Blob, Blob) -> Option<C>

  /** Gone, or as it was. */
  predicate Fades<C(==)>(was: Option<C>, now: Option<C>) {
    now == None || now == was
  }

  /** No operation of the engine does more to what is under another key than lose it. */
  ghost predicate Keeps<S(!new), C(!new)>(b: Backend<S>, holds: Holds<S, C>) {
    && (forall st, i, ks, k, x, y :: Fades(holds(st, x, y), holds(b.get(st, i, ks, k).0, x, y)))
    && (forall st, i, ks, k, v, x, y ::
          (x, y) != (ks, k) ==> Fades(holds(st, x, y), holds(b.put(st, i, ks, k, v), x, y)))
    && (forall st, i, ks, k, x, y :: (x, y) != (ks, k) ==> Fades(holds(st, x, y), holds(b.del(st, i, ks, k), x, y)))
  }

  /**
   An engine that may lose any value at any time, and does nothing worse: a get
   answers what is there or nothing, a put leaves its value or nothing, and a
   delete leaves nothing.
   */
  ghost predicate Lossy<S(!new)>(b: Backend<S>, holds: Holds<S, Blob>) {
    && Keeps(b, holds)
    && (forall st, i, ks, k :: Fades(holds(st, ks, k), b.get(st, i, ks, k).1))
    && (forall st, i, ks, k, v :: Fades(Some(v), holds(b.put(st, i, ks, k, v), ks, k)))
    && (forall st, i, ks, k :: holds(b.del(st, i, ks, k), ks, k) == None)
  }

  /** One that in fact loses nothing. */
  ghost predicate Lossless<S(!new)>(b: Backend<S>, holds: Holds<S, Blob>) {
    && (forall st, i, ks, k :: b.get(st, i, ks, k).1 == holds(st, ks, k))
    && (forall st, i, ks, k, x, y :: holds(b.get(st, i, ks, k).0, x, y) == holds(st, x, y))
    && (forall st, i, ks, k, v, x, y ::
          holds(b.put(st, i, ks, k, v), x, y) == if (x, y) == (ks, k) then Some(v) else holds(st, x, y))
    && (forall st, i, ks, k, x, y ::
          holds(b.del(st, i, ks, k), x, y) == if (x, y) == (ks, k) then None else holds(st, x, y))
  }

  /**
   A request that reaches the engine under this key and keyspace, the keyspace
   being the configured one the request names, or "cache" if it names none.
   */
  predicate Reaches(c: Config, r: Request, ks: Blob, k: Blob) {
    && IsKv(r) && !Rejects(c, r) && r.key == k
    && ks == Named(r) && ks in c.names && (r.keyspace == [] || c.utf8(r.keyspace))
  }

  lemma ReachesResolved(c: Config, r: Request, ks: Blob, k: Blob)
    ensures Reaches(c, r, ks, k) <==>
              IsKv(r) && !Rejects(c, r) && Resolve(c, r.keyspace) == Some(ks) && r.key == k
  {
  }

  predicate Writes(c: Config, r: Request, ks: Blob, k: Blob) {
    Reaches(c, r, ks, k) && r.op != OP_GET
  }

  /** The request leaves the store alone, or is the one engine call its operation names. */
  lemma StoreAfter<S>(c: Config, b: Backend<S>, p: Progress<S>, r: Request)
    ensures var st := Answer(c, b, p, r).store;
            || st == p.store
            || (IsKv(r) && !Rejects(c, r) && Resolve(c, r.keyspace).Some?
                && var ks := Resolve(c, r.keyspace).value;
                   st == if r.op == OP_GET then b.get(p.store, p.served, ks, r.key).0
                         else if r.op == OP_SET then b.put(p.store, p.served, ks, r.key, r.value)
                         else b.del(p.store, p.served, ks, r.key))
  {
    hide Reply, Resolve, Rejects;
  }

  /** Only a SET or DEL that reaches a key does more to what is under it than lose it. */
  lemma OthersKeep<S(!new), C(!new)>(c: Config, b: Backend<S>, holds: Holds<S, C>, p: Progress<S>, r: Request,
                                     ks: Blob, k: Blob)
    requires Keeps(b, holds) && !Writes(c, r, ks, k)
    ensures Fades(holds(p.store, ks, k), holds(Answer(c, b, p, r).store, ks, k))
  {
    ReachesResolved(c, r, ks, k);
    hide Reaches;
    hide Answer, Resolve, Rejects;
    StoreAfter(c, b, p, r);
    var st, i, name := p.store, p.served, Resolve(c, r.keyspace);
    if IsKv(r) && !Rejects(c, r) && name.Some? {
      assert Fades(holds(st, ks, k), holds(b.get(st, i, name.value, r.key).0, ks, k));
      assert r.op != OP_GET ==> (ks, k) != (name.value, r.key);
      assert r.op != OP_GET ==> Fades(holds(st, ks, k), holds(b.put(st, i, name.value, r.key, r.value), ks, k));
      assert r.op != OP_GET ==> Fades(holds(st, ks, k), holds(b.del(st, i, name.value, r.key), ks, k));
    }
  }

  lemma OthersLeave<S(!new)>(c: Config, b: Backend<S>, holds: Holds<S, Blob>, p: Progress<S>, r: Request,
                             ks: Blob, k: Blob)
    requires Lossless(b, holds) && !Writes(c, r, ks, k)
    ensures holds(Answer(c, b, p, r).store, ks, k) == holds(p.store, ks, k)
  {
    ReachesResolved(c, r, ks, k);
    hide Reaches;
    hide Answer, Resolve, Rejects;
    StoreAfter(c, b, p, r);
    var st, i, name := p.store, p.served, Resolve(c, r.keyspace);
    if IsKv(r) && !Rejects(c, r) && name.Some? {
      assert holds(b.get(st, i, name.value, r.key).0, ks, k) == holds(st, ks, k);
      assert r.op != OP_GET ==> (ks, k) != (name.value, r.key);
      assert r.op != OP_GET ==> holds(b.put(st, i, name.value, r.key, r.value), ks, k) == holds(st, ks, k);
      assert r.op != OP_GET ==> holds(b.del(st, i, name.value, r.key), ks, k) == holds(st, ks, k);
    }
  }

  lemma {:induction false} KeptThrough<S(!new), C(!new)>(c: Config, b: Backend<S>, holds: Holds<S, C>, p: Progress<S>,
                                                         rs: seq<Request>, i: nat, j: nat, ks: Blob, k: Blob)
    requires Keeps(b, holds)
    requires i <= j <= |rs| && forall x :: i <= x < j ==> !Writes(c, rs[x], ks, k)
    ensures Fades(holds(RunAll(c, b, p, rs[..i]).store, ks, k), holds(RunAll(c, b, p, rs[..j]).store, ks, k))
    decreases j - i
  {
    hide RunAll, Answer, Keeps;
    if i == j {
    } else {
      KeptThrough(c, b, holds, p, rs, i, j - 1, ks, k);
      RunLast(c, b, p, rs, j - 1);
      OthersKeep(c, b, holds, RunAll(c, b, p, rs[..j - 1]), rs[j - 1], ks, k);
    }
  }

  lemma {:induction false} LeftThrough<S(!new)>(c: Config, b: Backend<S>, holds: Holds<S, Blob>, p: Progress<S>,
                                                rs: seq<Request>, i: nat, j: nat, ks: Blob, k: Blob)
    requires Lossless(b, holds)
    requires i <= j <= |rs| && forall x :: i <= x < j ==> !Writes(c, rs[x], ks, k)
    ensures holds(RunAll(c, b, p, rs[..j]).store, ks, k) == holds(RunAll(c, b, p, rs[..i]).store, ks, k)
    decreases j - i
  {
    hide RunAll, Answer, Lossless;
    if i == j {
    } else {
      LeftThrough(c, b, holds, p, rs, i, j - 1, ks, k);
      RunLast(c, b, p, rs, j - 1);
      OthersLeave(c, b, holds, RunAll(c, b, p, rs[..j - 1]), rs[j - 1], ks, k);
    }
  }

  /** A key-value request of an authenticated connection is the engine call it names. */
  lemma ServedBy<S>(c: Config, b: Backend<S>, p: Progress<S>, r: Request, ks: Blob, k: Blob)
    requires p.authed && Reaches(c, r, ks, k)
    ensures var (st, authed, reply) := Serve(c, b, p, r);
            && Answer(c, b, p, r).store == st
            && (r.op == OP_SET ==> reply == Ok && st == b.put(p.store, p.served, ks, k, r.value))
            && (r.op == OP_DEL ==> reply == Ok && st == b.del(p.store, p.served, ks, k))
            && (r.op == OP_GET ==>
                  var v := b.get(p.store, p.served, ks, k).1;
                  reply == if v.Some? then ValueShared(v.value) else NotFound)
  {
    ReachesResolved(c, r, ks, k);
    hide Reply, Resolve, Rejects, Reaches;
  }

  /** A pipelined list of requests on which a GET follows the last write of its key. */
  ghost predicate ReadsAfter(c: Config, rs: seq<Request>, i: nat, j: nat, ks: Blob, k: Blob) {
    && i < j < |rs|
    && Writes(c, rs[i], ks, k) && (forall x :: i < x < j ==> !Writes(c, rs[x], ks, k))
    && Reaches(c, rs[j], ks, k) && rs[j].op == OP_GET
  }

  /**
   Over any engine that may lose values but does nothing worse, a pipelined GET
   is answered with the value of the last SET that reached its key, or NotFound;
   after a DEL, NotFound; and if the engine loses nothing, never NotFound after
   a SET.
   */
  lemma GetAnswersLastWrite<S(!new)>(c: Config, b: Backend<S>, holds: Holds<S, Blob>, p: Progress<S>,
                                     rs: seq<Request>, i: nat, j: nat, ks: Blob, k: Blob)
    requires Lossy(b, holds) && p.authed && ReadsAfter(c, rs, i, j, ks, k)
    ensures |Responses(c, b, p, rs)| == |rs| && Responses(c, b, p, rs)[i] == Ok
    ensures var reply := Responses(c, b, p, rs)[j];
            && (reply == NotFound || (rs[i].op == OP_SET && reply == ValueShared(rs[i].value)))
            && (Lossless(b, holds) && rs[i].op == OP_SET ==> reply == ValueShared(rs[i].value))
  {
    hide RunAll, Responses, Serve, Answer, Keeps, Rejects, Resolve;
    OneResponseEach(c, b, p, rs);
    ResponseAt(c, b, p, rs, i);
    ResponseAt(c, b, p, rs, j);
    AuthLatches(c, b, p, rs[..i]);
    AuthLatches(c, b, p, rs[..j]);
    RunLast(c, b, p, rs, i);
    var before, at := RunAll(c, b, p, rs[..i]), RunAll(c, b, p, rs[..j]);
    ServedBy(c, b, before, rs[i], ks, k);
    ServedBy(c, b, at, rs[j], ks, k);
    KeptThrough(c, b, holds, p, rs, i + 1, j, ks, k);
    assert Fades(holds(at.store, ks, k), b.get(at.store, at.served, ks, k).1);
    if Lossless(b, holds) && rs[i].op == OP_SET {
      LeftThrough(c, b, holds, p, rs, i + 1, j, ks, k);
      var v := rs[i].value;
      assert holds(b.put(before.store, before.served, ks, k, v), ks, k)
          == if (ks, k) == (ks, k) then Some(v) else holds(before.store, ks, k);
    }
  }

  /** A flat map is an engine that loses nothing. */
  type FlatStore = map<(Blob, Blob), Blob>

  function FlatBackend(): Backend<FlatStore> {
    Backend(
      (m: FlatStore, i: nat, ks: Blob, k: Blob) => (m, if (ks, k) in m then Some(m[(ks, k)]) else None),
      (m: FlatStore, i: nat, ks: Blob, k: Blob, v: Blob) => m[(ks, k) := v],
      (m: FlatStore, i: nat, ks: Blob, k: Blob) => m - {(ks, k)})
  }

  function FlatHolds(): Holds<FlatStore, Blob> {
    (m: FlatStore, ks: Blob, k: Blob) => if (ks, k) in m then Some(m[(ks, k)]) else None
  }

  lemma FlatLosesNothing()
    ensures Lossless(FlatBackend(), FlatHolds())
  {
  }

  /** To lose nothing is a way of doing nothing worse than lose things. */
  lemma LosslessIsLossy<S(!new)>(b: Backend<S>, holds: Holds<S, Blob>)
    requires Lossless(b, holds)
    ensures Lossy(b, holds)
  {
    forall st, i, ks, k, v, x, y | (x, y) != (ks, k)
      ensures Fades(holds(st, x, y), holds(b.put(st, i, ks, k, v), x, y))
    {
    }
    forall st, i, ks, k, v
      ensures Fades(Some(v), holds(b.put(st, i, ks, k, v), ks, k))
    {
      assert holds(b.put(st, i, ks, k, v), ks, k) == if (ks, k) == (ks, k) then Some(v) else holds(st, ks, k);
    }
    forall st, i, ks, k
      ensures holds(b.del(st, i, ks, k), ks, k) == None
    {
      assert holds(b.del(st, i, ks, k), ks, k) == if (ks, k) == (ks, k) then None else holds(st, ks, k);
    }
  }
}
