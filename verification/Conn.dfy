/**
 The connection loop: drain whole frames into a batch, read when there are none,
 dispatch the batch, write its replies.  Reads deliver arbitrary non-empty chunks
 and then the end of the stream.
 */
module Conn {
  import opened Bytes
  import opened Protocol
  import opened Codec
  import opened Dispatch
  import Auth

  const MAX_BATCH: nat := 1024

  // ---- frames of a byte string ----

  /** The complete frames at the front of a buffer, what follows them, and whether that is malformed. */
  datatype Drained = Drained(batch: seq<Request>, rest: Blob, malformed: bool)

  function Drain(b: Blob, most: nat): (d: Drained)
    ensures |d.rest| + 12 * |d.batch| <= |b| && |d.batch| <= most
    decreases |b|
  {
    if most == 0 then Drained([], b, false)
    else match Decode(b)
      case NeedMore => Drained([], b, false)
      case Malformed => Drained([], b, true)
      case Done(r, rest) => var d := Drain(rest, most - 1); d.(batch := [r] + d.batch)
  }

  function Frames(b: Blob): (d: Drained)
    ensures |d.rest| + 12 * |d.batch| <= |b|
    decreases |b|
  {
    match Decode(b)
    case NeedMore => Drained([], b, false)
    case Malformed => Drained([], b, true)
    case Done(r, rest) => var d := Frames(rest); d.(batch := [r] + d.batch)
  }

  /** Requests as a client that pipelines them sends them. */
  function Sent(rs: seq<Request>): Blob {
    if rs == [] then [] else Frame(rs[0]) + Sent(rs[1..])
  }

  /** What a client pipelines is what the connection finds: every request, in order, and then whatever follows. */
  lemma {:induction false} FramesOfSent(rs: seq<Request>, tail: Blob)
    requires forall i :: 0 <= i < |rs| ==> WellSized(rs[i])
    requires !Decode(tail).Done?
    ensures Frames(Sent(rs) + tail) == Drained(rs, tail, Decode(tail).Malformed?)
    decreases |rs|
  {
    hide Decode, Frame;
    if rs == [] {
      assert Sent(rs) + tail == tail;
    } else {
      assert Sent(rs) + tail == Frame(rs[0]) + (Sent(rs[1..]) + tail);
      DecodeEncoded(rs[0], Sent(rs[1..]) + tail);
      FramesOfSent(rs[1..], tail);
      assert rs == [rs[0]] + rs[1..];
    }
  }

  /** Why a drain stopped short of the cap. */
  lemma {:induction false} DrainStops(b: Blob, most: nat)
    ensures var d := Drain(b, most);
            |d.batch| < most ==> if d.malformed then Decode(d.rest).Malformed? else Decode(d.rest).NeedMore?
    decreases |b|
  {
    hide Decode;
    if most == 0 || !Decode(b).Done? {
    } else {
      DrainStops(Decode(b).rest, most - 1);
    }
  }

  /** A drain that had already yielded some frames. */
  function Prepended(batch: seq<Request>, d: Drained): Drained {
    d.(batch := batch + d.batch)
  }

  lemma DrainStep(b: Blob, most: nat, batch: seq<Request>)
    requires most > 0
    ensures Prepended(batch, Drain(b, most)) ==
              match Decode(b)
              case NeedMore => Drained(batch, b, false)
              case Malformed => Drained(batch, b, true)
              case Done(r, rest) => Prepended(batch + [r], Drain(rest, most - 1))
  {
    hide Decode;
    if Decode(b).Done? {
      var r, d := Decode(b).request, Drain(Decode(b).rest, most - 1);
      assert batch + ([r] + d.batch) == batch + [r] + d.batch;
    } else {
      assert batch + [] == batch;
    }
  }

  lemma DrainFull(b: Blob, batch: seq<Request>)
    ensures Prepended(batch, Drain(b, 0)) == Drained(batch, b, false)
  {
    assert batch + [] == batch;
  }

  // ---- the loop ----

  /**
   The rest of a connection's life, from the top of its loop, with batches of at
   most `cap` requests.  A read of no bytes is the end of the stream.
   */
  function Loop<S>(c: Config, b: Backend<S>, cap: nat, p: Progress<S>, buf: Blob, chunks: seq<Blob>): Progress<S>
    requires cap > 0
    decreases |chunks|, |buf|
  {
    var d := Drain(buf, cap);
    if d.malformed then p.(written := p.written + Reply(BadRequest))
    else if d.batch == [] then
      var q := p.(waits := p.waits + [p.written]);
      if chunks == [] || chunks[0] == [] then q else Loop(c, b, cap, q, d.rest + chunks[0], chunks[1..])
    else Loop(c, b, cap, RunAll(c, b, p, d.batch), d.rest, chunks)
  }

  lemma RunOne<S>(c: Config, b: Backend<S>, p: Progress<S>, rs: seq<Request>, n: nat)
    requires n < |rs|
    ensures RunAll(c, b, p, rs[n..]) == RunAll(c, b, Answer(c, b, p, rs[n]), rs[n + 1..])
  {
    hide Answer;
    assert rs[n..][0] == rs[n] && rs[n..][1..] == rs[n + 1..];
  }

  lemma RunNone<S>(c: Config, b: Backend<S>, p: Progress<S>, rs: seq<Request>)
    ensures RunAll(c, b, p, rs[|rs|..]) == p
  {
  }

  class Connection<S(0)> {
    const config: Config
    const backend: Backend<S>
    const inBuf: Buffer
    const outBuf: Buffer
    var authed: bool
    /** The engine's state, the number of requests served, and the bytes sent so far. */
    var store: S
    var served: nat
    var written: Blob
    /** What had been sent at each moment the connection waited for a read. */
    var waits: seq<Blob>

    ghost function View(): Progress<S>
      reads this
    {
      Progress(store, authed, served, written, waits)
    }

    constructor (config: Config, backend: Backend<S>, store: S)
      ensures this.config == config && this.backend == backend
      ensures View() == Progress(store, config.apiKey == [], 0, [], [])
      ensures inBuf.data == [] && outBuf.data == []
      ensures inBuf != outBuf && fresh(inBuf) && fresh(outBuf)
    {
      this.config, this.backend, this.store := config, backend, store;
      authed, served, written, waits := config.apiKey == [], 0, [], [];
      var input := new Buffer();
      var output := new Buffer();
      inBuf, outBuf := input, output;
    }

    /** Pull complete frames off the input buffer, up to the batch cap. */
    method DrainInput() returns (batch: seq<Request>, malformed: bool)
      modifies inBuf
      ensures Drain(old(inBuf.data), MAX_BATCH) == Drained(batch, inBuf.data, malformed)
      ensures |batch| <= 1024
      ensures |batch| < 1024 ==>
                if malformed then Decode(inBuf.data).Malformed? else Decode(inBuf.data).NeedMore?
    {
      hide Drain, Decode;
      DrainStops(inBuf.data, MAX_BATCH);
      batch, malformed := [], false;
      assert Prepended([], Drain(inBuf.data, MAX_BATCH)) == Drain(inBuf.data, MAX_BATCH);
      while |batch| < MAX_BATCH
        invariant |batch| <= MAX_BATCH
        invariant Drain(old(inBuf.data), MAX_BATCH) == Prepended(batch, Drain(inBuf.data, MAX_BATCH - |batch|))
      {
        DrainStep(inBuf.data, MAX_BATCH - |batch|, batch);
        var got, bad := DecodeOne(inBuf);
        if bad {
          return batch, true;
        }
        if got.None? {
          return batch, false;
        }
        batch := batch + [got.value];
      }
      DrainFull(inBuf.data, batch);
    }

    /**
     Serve a batch in order, resolving the keyspace once per run of identical
     keyspace bytes, and send the replies in one write.
     */
    method DispatchBatch(batch: seq<Request>)
      requires inBuf != outBuf
      modifies this, outBuf
      ensures View() == RunAll(config, backend, old(View()), batch)
    {
      hide DispatchOne, DispatchKvOn, Resolve, Rejects, Reply, RunAll;
      outBuf.Clear();
      ghost var before := View();
      var cachedKs: Option<Blob> := None;
      var cachedBytes: Option<Blob> := None;
      var n := 0;
      assert before.written + outBuf.data == before.written && batch[0..] == batch;
      while n < |batch|
        invariant 0 <= n <= |batch|
        invariant cachedBytes.Some? ==> cachedKs == Resolve(config, cachedBytes.value)
        invariant RunAll(config, backend, before, batch) == RunAll(config, backend, Sending(outBuf.data), batch[n..])
      {
        var r := batch[n];
        ghost var p := Sending(outBuf.data);
        RunOne(config, backend, p, batch, n);
        var reply;
        if r.op == OP_AUTH {
          var same := Auth.ConstantTimeEq(r.value, config.apiKey);
          if same {
            authed := true;
            reply := Ok;
          } else {
            reply := Unauthorized;
          }
        } else if !authed {
          reply := Unauthorized;
        } else if IsKv(r) && !Rejects(config, r) {
          if cachedBytes != Some(r.keyspace) {
            cachedKs := Resolve(config, r.keyspace);
            cachedBytes := Some(r.keyspace);
          }
          if cachedKs.Some? {
            var (st, kv) := DispatchKvOn(backend, store, served, cachedKs.value, r);
            store, reply := st, kv;
          } else {
            reply := UnknownKeyspace;
          }
        } else {
          var (st, other) := DispatchOne(config, backend, store, served, r);
          store, reply := st, other;
        }
        ghost var sent := outBuf.data;
        EncodeResponse(reply, outBuf);
        served := served + 1;
        assert before.written + outBuf.data == before.written + sent + Reply(reply);
        assert Sending(outBuf.data) == Answer(config, backend, p, r);
        n := n + 1;
      }
      RunNone(config, backend, Sending(outBuf.data), batch);
      written := written + outBuf.data;
    }

    /** The connection as it will be once what is in the output buffer is sent. */
    ghost function Sending(out: Blob): Progress<S>
      reads this
    {
      Progress(store, authed, served, written + out, waits)
    }

    /** The whole life of a connection. */
    method Handle(chunks: seq<Blob>)
      requires inBuf != outBuf
      modifies this, inBuf, outBuf
      ensures View() == Loop(config, backend, MAX_BATCH, old(View()), old(inBuf.data), chunks)
    {
      hide RunAll, Reply, Drain;
      ghost var before, buffered := View(), inBuf.data;
      var next := 0;
      assert chunks[0..] == chunks;
      while true
        invariant 0 <= next <= |chunks|
        invariant Loop(config, backend, MAX_BATCH, before, buffered, chunks)
                  == Loop(config, backend, MAX_BATCH, View(), inBuf.data, chunks[next..])
        decreases |chunks| - next, |inBuf.data|
      {
        var batch, malformed := DrainInput();
        if malformed {
          outBuf.Clear();
          EncodeResponse(BadRequest, outBuf);
          written := written + outBuf.data;
          return;
        }
        if batch == [] {
          waits := waits + [written];
          if next == |chunks| || chunks[next] == [] {
            return;
          }
          assert chunks[next..][0] == chunks[next] && chunks[next..][1..] == chunks[next + 1..];
          inBuf.PutSlice(chunks[next]);
          next := next + 1;
        } else {
          DispatchBatch(batch);
        }
      }
    }
  }
}
