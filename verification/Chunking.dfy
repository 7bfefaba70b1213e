/** How the way a stream is cut into reads does, and does not, affect a connection. */
module Chunking {
  import opened Arithmetic
  import opened Bytes
  import opened Protocol
  import opened Codec
  import opened Dispatch
  import opened Conn

  /** Non-empty reads that together deliver the stream. */
  predicate Delivers(chunks: seq<Blob>, stream: Blob) {
    Concat(chunks) == stream && forall i :: 0 <= i < |chunks| ==> chunks[i] != []
  }

  // ---- draining ----

  lemma FramesWaiting(b: Blob)
    requires Decode(b).NeedMore?
    ensures Frames(b) == Drained([], b, false)
  {
  }

  lemma FramesMalformed(b: Blob, more: Blob)
    requires Decode(b).Malformed?
    ensures Frames(b + more) == Drained([], b + more, true)
  {
    hide Decode;
    DecodeStable(b, more);
  }

  lemma FramesDone(b: Blob, more: Blob)
    requires Decode(b).Done?
    ensures var f := Frames(Decode(b).rest + more);
            Frames(b + more) == f.(batch := [Decode(b).request] + f.batch)
  {
    hide Decode;
    DecodeStable(b, more);
  }

  /** A drain takes the first frames of whatever the stream turns out to hold, and stops for a reason. */
  lemma {:induction false} DrainTakesFrames(b: Blob, most: nat, more: Blob)
    ensures var d := Drain(b, most);
            var f := Frames(d.rest + more);
            && Frames(b + more) == f.(batch := d.batch + f.batch)
            && (d.malformed ==> f.malformed && f.batch == [] && |d.batch| < most)
            && (!d.malformed && |d.batch| < most ==> Decode(d.rest).NeedMore?)
            && (d.batch == [] ==> d.rest == b)
    decreases |b|
  {
    hide Decode, Frames;
    var d := Drain(b, most);
    if most == 0 {
    } else if Decode(b).Done? {
      var r, rest := Decode(b).request, Decode(b).rest;
      DrainTakesFrames(rest, most - 1, more);
      FramesDone(b, more);
      var e, f := Drain(rest, most - 1), Frames(d.rest + more);
      assert [r] + (e.batch + f.batch) == d.batch + f.batch;
    } else if Decode(b).Malformed? {
      FramesMalformed(b, more);
    }
    assert [] + Frames(d.rest + more).batch == Frames(d.rest + more).batch;
  }

  /** A stream with fewer frames than the cap before a malformed one is drained to that point. */
  lemma {:induction false} DrainCount(b: Blob, most: nat)
    requires Frames(b).malformed
    ensures var d := Drain(b, most);
            if |Frames(b).batch| < most then d.malformed else !d.malformed && d.batch == Frames(b).batch[..most]
    decreases |b|
  {
    hide Decode;
    if most > 0 && Decode(b).Done? {
      DrainCount(Decode(b).rest, most - 1);
    }
  }

  // ---- which requests are executed ----

  /** How many requests the loop executes before the connection ends. */
  function Executed(cap: nat, buf: Blob, chunks: seq<Blob>): nat
    requires cap > 0
    decreases |chunks|, |buf|
  {
    var d := Drain(buf, cap);
    if d.malformed then 0
    else if d.batch == [] then
      if chunks == [] || chunks[0] == [] then 0 else Executed(cap, d.rest + chunks[0], chunks[1..])
    else |d.batch| + Executed(cap, d.rest, chunks)
  }

  /** A connection that ends as `p` did, with one BadRequest if a malformed frame ended it. */
  function Ended<S>(p: Progress<S>, malformed: bool): Progress<S> {
    if malformed then p.(written := p.written + Reply(BadRequest)) else p
  }

  /** Ignoring when reads happened. */
  function Outcome<S>(p: Progress<S>): Progress<S> {
    p.(waits := [])
  }

  lemma AnswerWaits<S>(c: Config, b: Backend<S>, p: Progress<S>, w: seq<Blob>, r: Request)
    ensures Answer(c, b, p.(waits := w), r) == Answer(c, b, p, r).(waits := w)
  {
    hide DispatchKvOn, DispatchOne, Resolve, Rejects, Reply;
  }

  lemma RunAllWaits<S>(c: Config, b: Backend<S>, p: Progress<S>, w: seq<Blob>, rs: seq<Request>)
    ensures RunAll(c, b, p.(waits := w), rs) == RunAll(c, b, p, rs).(waits := w)
    decreases |rs|
  {
    hide Answer;
    if rs != [] {
      AnswerWaits(c, b, p, w, rs[0]);
      RunAllWaits(c, b, Answer(c, b, p, rs[0]), w, rs[1..]);
    }
  }

  /** Splitting the run of a prefix of two batches. */
  lemma RunPrefix<S>(c: Config, b: Backend<S>, p: Progress<S>, xs: seq<Request>, ys: seq<Request>, n: nat)
    requires n <= |ys|
    ensures RunAll(c, b, p, (xs + ys)[..|xs| + n]) == RunAll(c, b, RunAll(c, b, p, xs), ys[..n])
  {
    assert (xs + ys)[..|xs| + n] == xs + ys[..n];
    RunAppend(c, b, p, xs, ys[..n]);
  }

  /**
   However the stream is cut into reads and whatever the batch cap, the connection
   executes a prefix of its
   frames, in order, and sends exactly their responses, then one BadRequest if a
   malformed frame follows.  Without one that prefix is everything; with one it
   falls short by fewer than a batch.
   */
  lemma {:induction false} ExecutesPrefix<S>(c: Config, b: Backend<S>, cap: nat, p: Progress<S>,
                                             buf: Blob, chunks: seq<Blob>)
    requires cap > 0
    requires forall i :: 0 <= i < |chunks| ==> chunks[i] != []
    ensures var f := Frames(buf + Concat(chunks));
            var n := Executed(cap, buf, chunks);
            && n <= |f.batch| && |f.batch| - n < cap && (!f.malformed ==> n == |f.batch|)
            && Outcome(Loop(c, b, cap, p, buf, chunks)) == Outcome(Ended(RunAll(c, b, p, f.batch[..n]), f.malformed))
    decreases |chunks|, |buf|
  {
    hide Frames, Drain, RunAll, Decode, Reply;
    var d := Drain(buf, cap);
    var stream := buf + Concat(chunks);
    var f := Frames(stream);
    DrainTakesFrames(buf, cap, Concat(chunks));
    RunNothing(c, b, p);
    if d.malformed {
      assert f.batch[..0] == [];
    } else if d.batch == [] {
      var q := p.(waits := p.waits + [p.written]);
      if chunks == [] {
        FramesWaiting(buf);
        assert stream == buf;
        assert f.batch[..0] == [];
      } else {
        assert stream == buf + chunks[0] + Concat(chunks[1..]);
        ExecutesPrefix(c, b, cap, q, buf + chunks[0], chunks[1..]);
        RunAllWaits(c, b, p, q.waits, f.batch[..Executed(cap, buf, chunks)]);
      }
    } else {
      var g := Frames(d.rest + Concat(chunks));
      ExecutesPrefix(c, b, cap, RunAll(c, b, p, d.batch), d.rest, chunks);
      RunPrefix(c, b, p, d.batch, g.batch, Executed(cap, d.rest, chunks));
    }
  }

  lemma RunNothing<S>(c: Config, b: Backend<S>, p: Progress<S>)
    ensures RunAll(c, b, p, []) == p
  {
  }

  /**
   Chunking independence: a stream with no malformed frame is served the same
   however it is cut into reads and whatever the batch cap is -- every frame,
   in order, once.
   */
  lemma ChunkingIndependence<S>(c: Config, b: Backend<S>, cap: nat, p: Progress<S>, chunks: seq<Blob>, stream: Blob)
    requires cap > 0 && Delivers(chunks, stream) && !Frames(stream).malformed
    ensures Outcome(Loop(c, b, cap, p, [], chunks)) == Outcome(RunAll(c, b, p, Frames(stream).batch))
  {
    hide Frames, RunAll, Loop;
    assert [] + Concat(chunks) == stream;
    ExecutesPrefix(c, b, cap, p, [], chunks);
    var f := Frames(stream);
    assert f.batch[..|f.batch|] == f.batch;
  }

  // ---- never waiting with a frame in hand ----

  /** What the connection owes for the bytes of its first `j` reads. */
  function Owed<S>(c: Config, b: Backend<S>, p: Progress<S>, buf: Blob, chunks: seq<Blob>, j: nat): Blob
    requires j <= |chunks|
  {
    RunAll(c, b, p, Frames(buf + Concat(chunks[..j])).batch).written
  }

  /**
   Whenever the connection waits to read, it has already sent the response to
   every frame that is complete in the bytes received so far.
   */
  lemma {:induction false} NeverWaitsWithWork<S>(c: Config, b: Backend<S>, cap: nat, p: Progress<S>,
                                                 buf: Blob, chunks: seq<Blob>, j: nat)
    requires cap > 0
    requires forall i :: 0 <= i < |chunks| ==> chunks[i] != []
    requires j <= |chunks| && !Frames(buf + Concat(chunks[..j])).malformed
    ensures var w := Loop(c, b, cap, p, buf, chunks).waits;
            && |w| > |p.waits| + j && w[..|p.waits|] == p.waits
            && w[|p.waits| + j] == Owed(c, b, p, buf, chunks, j)
    decreases |chunks|, |buf|
  {
    hide Frames, Drain, RunAll, Decode, Reply;
    var d := Drain(buf, cap);
    var got := Concat(chunks[..j]);
    DrainTakesFrames(buf, cap, got);
    if !d.malformed {
      if d.batch == [] {
        WaitsAtRead(c, b, cap, p, buf, chunks, j);
      } else {
        var q := RunAll(c, b, p, d.batch);
        NeverWaitsWithWork(c, b, cap, q, d.rest, chunks, j);
        OneResponseEach(c, b, p, d.batch);
        RunAppend(c, b, p, d.batch, Frames(d.rest + got).batch);
      }
    }
  }

  lemma {:induction false} WaitsAtRead<S>(c: Config, b: Backend<S>, cap: nat, p: Progress<S>,
                                          buf: Blob, chunks: seq<Blob>, j: nat)
    requires cap > 0
    requires forall i :: 0 <= i < |chunks| ==> chunks[i] != []
    requires j <= |chunks| && !Frames(buf + Concat(chunks[..j])).malformed
    requires Drain(buf, cap) == Drained([], buf, false)
    ensures var w := Loop(c, b, cap, p, buf, chunks).waits;
            && |w| > |p.waits| + j && w[..|p.waits|] == p.waits
            && w[|p.waits| + j] == Owed(c, b, p, buf, chunks, j)
    decreases |chunks|, |buf|, 0
  {
    hide Frames, RunAll, Decode, Reply;
    var q := p.(waits := p.waits + [p.written]);
    DrainTakesFrames(buf, cap, []);
    FramesWaiting(buf);
    RunNothing(c, b, p);
    if j > 0 {
      var rest := chunks[1..];
      assert chunks[..j] == [chunks[0]] + rest[..j - 1];
      assert buf + Concat(chunks[..j]) == buf + chunks[0] + Concat(rest[..j - 1]);
      NeverWaitsWithWork(c, b, cap, q, buf + chunks[0], rest, j - 1);
      RunAllWaits(c, b, p, q.waits, Frames(buf + Concat(chunks[..j])).batch);
      var w := Loop(c, b, cap, p, buf, chunks).waits;
      assert w[..|p.waits|] == w[..|q.waits|][..|p.waits|];
    } else {
      assert buf + Concat(chunks[..0]) == buf;
      if chunks != [] {
        LoopKeepsWaits(c, b, cap, q, buf + chunks[0], chunks[1..]);
      }
    }
  }

  lemma {:induction false} LoopKeepsWaits<S>(c: Config, b: Backend<S>, cap: nat, p: Progress<S>,
                                             buf: Blob, chunks: seq<Blob>)
    requires cap > 0
    ensures var w := Loop(c, b, cap, p, buf, chunks).waits; |w| >= |p.waits| && w[..|p.waits|] == p.waits
    decreases |chunks|, |buf|
  {
    hide Drain, RunAll, Reply;
    var d := Drain(buf, cap);
    if !d.malformed {
      if d.batch == [] {
        var q := p.(waits := p.waits + [p.written]);
        if chunks != [] && chunks[0] != [] {
          LoopKeepsWaits(c, b, cap, q, d.rest + chunks[0], chunks[1..]);
          var w := Loop(c, b, cap, p, buf, chunks).waits;
          assert w[..|p.waits|] == w[..|q.waits|][..|p.waits|];
        }
      } else {
        OneResponseEach(c, b, p, d.batch);
        LoopKeepsWaits(c, b, cap, RunAll(c, b, p, d.batch), d.rest, chunks);
      }
    }
  }

  // ---- a malformed frame makes the cut matter ----

  /** As many of `n` as make up full batches. */
  function FullBatches(n: nat, cap: nat): int
    requires cap > 0
  {
    n - n % cap
  }

  lemma OneOrNone(n: nat, cap: nat)
    requires n < cap
    ensures FullBatches(n, 1) == n && FullBatches(n, cap) == 0
  {
    ModUnique(n, 1, n, 0);
    ModUnique(n, cap, 0, n);
  }

  lemma OneBatchMore(n: nat, cap: nat)
    requires cap > 0
    ensures FullBatches(n, cap) == if n < cap then 0 else cap + FullBatches(n - cap, cap)
  {
    if n < cap {
      ModUnique(n, cap, 0, n);
    } else {
      ModLess(n, cap);
    }
  }

  /** Read whole, a malformed stream has its requests executed in full batches only. */
  lemma {:induction false} ExecutedWhole(cap: nat, buf: Blob)
    requires cap > 0 && Frames(buf).malformed
    ensures Executed(cap, buf, []) == FullBatches(|Frames(buf).batch|, cap)
    decreases |buf|
  {
    hide Frames, Drain, Decode, FullBatches;
    DrainCount(buf, cap);
    var d, n := Drain(buf, cap), |Frames(buf).batch|;
    OneBatchMore(n, cap);
    if n < cap {
    } else {
      DrainTakesFrames(buf, cap, []);
      assert buf + [] == buf && d.rest + [] == d.rest;
      ExecutedWhole(cap, d.rest);
      assert |Frames(d.rest).batch| == n - cap;
    }
  }

  lemma EmptyBuffer(cap: nat)
    ensures Decode([]).NeedMore? && Drain([], cap) == Drained([], [], false)
  {
  }

  lemma ReadWhole(cap: nat, stream: Blob)
    requires cap > 0 && Frames(stream).malformed
    ensures Delivers([stream], stream)
    ensures Executed(cap, [], [stream]) == FullBatches(|Frames(stream).batch|, cap)
  {
    hide Frames, Drain, Decode;
    EmptyBuffer(cap);
    assert Concat([stream]) == stream + [] == stream;
    if stream == [] {
      FramesWaiting([]);
    }
    ExecutedWhole(cap, stream);
    assert [] + stream == stream;
  }

  /** Read with the first frame on its own, that frame is executed apart from the rest. */
  lemma ReadFirstApart(cap: nat, stream: Blob) returns (chunks: seq<Blob>)
    requires cap > 0 && Frames(stream).malformed && Frames(stream).batch != []
    ensures Delivers(chunks, stream)
    ensures Executed(cap, [], chunks) == 1 + FullBatches(|Frames(stream).batch| - 1, cap)
  {
    hide Drain, Decode, Frame, Le16, Le32;
    assert Decode(stream).Done?;
    var r, rest := Decode(stream).request, Decode(stream).rest;
    DecodeSound(stream);
    FrameLength(r);
    var first := Frame(r);
    DecodeEncoded(r, []);
    assert first + [] == first;
    chunks := [first, rest];
    assert chunks[1..] == [rest];
    assert Concat([rest]) == rest + [] == rest;
    assert Concat(chunks) == first + Concat([rest]);
    if rest == [] {
      EmptyBuffer(cap);
    }
    EmptyBuffer(cap);
    DrainFirst(cap, first, r);
    ExecutedWhole(cap, rest);
    assert [] + first == first && [] + rest == rest;
    assert Executed(cap, [], [rest]) == Executed(cap, rest, []);
    assert Executed(cap, first, [rest]) == 1 + Executed(cap, [], [rest]);
    assert Executed(cap, [], chunks) == Executed(cap, first, [rest]);
  }

  lemma DrainFirst(cap: nat, first: Blob, r: Request)
    requires cap > 0 && Decode(first) == Done(r, [])
    ensures Drain(first, cap) == Drained([r], [], false)
  {
    hide Decode;
    EmptyBuffer(cap);
    assert Drain([], cap - 1) == Drained([], [], false);
  }

  /** More requests executed means more bytes sent. */
  lemma MoreExecutedMoreSent<S>(c: Config, b: Backend<S>, p: Progress<S>, rs: seq<Request>, m: nat, n: nat)
    requires m < n <= |rs|
    ensures |RunAll(c, b, p, rs[..m]).written| < |RunAll(c, b, p, rs[..n]).written|
  {
    hide RunAll, Responses;
    assert rs[..n] == rs[..m] + rs[m..n];
    var q := RunAll(c, b, p, rs[..m]);
    RunAppend(c, b, p, rs[..m], rs[m..n]);
    OneResponseEach(c, b, q, rs[m..n]);
    SomeReplySent(Responses(c, b, q, rs[m..n]));
  }

  lemma SomeReplySent(rs: seq<Response>)
    requires rs != []
    ensures |Replies(rs)| > 0
  {
  }

  /** Two ways of cutting and two caps that execute different numbers of requests differ in what they send. */
  lemma DifferentlyServed<S>(c: Config, b: Backend<S>, p: Progress<S>, stream: Blob,
                             m: nat, x: seq<Blob>, n: nat, y: seq<Blob>)
    requires m > 0 && n > 0 && Delivers(x, stream) && Delivers(y, stream) && Frames(stream).malformed
    requires Executed(m, [], x) != Executed(n, [], y)
    ensures Outcome(Loop(c, b, m, p, [], x)) != Outcome(Loop(c, b, n, p, [], y))
  {
    hide Frames, RunAll, Loop, Executed, Decode, Reply;
    var f := Frames(stream);
    assert [] + stream == stream;
    ExecutesPrefix(c, b, m, p, [], x);
    ExecutesPrefix(c, b, n, p, [], y);
    var i, j := Executed(m, [], x), Executed(n, [], y);
    if i < j {
      MoreExecutedMoreSent(c, b, p, f.batch, i, j);
    } else {
      MoreExecutedMoreSent(c, b, p, f.batch, j, i);
    }
  }

  /** Two ways of cutting and two caps that execute the same number of requests serve the stream alike. */
  lemma AlikeServed<S>(c: Config, b: Backend<S>, p: Progress<S>, stream: Blob,
                       m: nat, x: seq<Blob>, n: nat, y: seq<Blob>)
    requires m > 0 && n > 0 && Delivers(x, stream) && Delivers(y, stream)
    requires Executed(m, [], x) == Executed(n, [], y)
    ensures Outcome(Loop(c, b, m, p, [], x)) == Outcome(Loop(c, b, n, p, [], y))
  {
    hide Frames, RunAll, Loop, Executed, Decode, Reply;
    assert [] + stream == stream;
    ExecutesPrefix(c, b, m, p, [], x);
    ExecutesPrefix(c, b, n, p, [], y);
  }

  /** How many requests are executed where nothing can be discarded, and with a cap of one. */
  lemma ExecutedAll<S>(c: Config, b: Backend<S>, cap: nat, p: Progress<S>, stream: Blob, chunks: seq<Blob>)
    requires cap > 0 && Delivers(chunks, stream)
    ensures !Frames(stream).malformed || Frames(stream).batch == [] || cap == 1
            ==> Executed(cap, [], chunks) == |Frames(stream).batch|
  {
    hide Frames, RunAll, Loop, Executed, Decode, Reply;
    assert [] + stream == stream;
    ExecutesPrefix(c, b, cap, p, [], chunks);
  }

  /** A stream whose malformed frame comes after some good ones. */
  predicate Discards(stream: Blob) {
    Frames(stream).malformed && Frames(stream).batch != []
  }

  /**
   With one batch cap, exactly which streams are served the same however they are
   cut into reads: those without a malformed frame, those that begin with one,
   and with a cap of one all of them.  Any other stream already gives different
   output whole and with its first frame read apart, because a malformed frame
   discards the requests drained just before it.
   */
  lemma ChunkingIndependentExactly<S>(c: Config, b: Backend<S>, cap: nat, p: Progress<S>, stream: Blob)
    requires cap > 0
    ensures (forall x, y :: Delivers(x, stream) && Delivers(y, stream)
                            ==> Outcome(Loop(c, b, cap, p, [], x)) == Outcome(Loop(c, b, cap, p, [], y)))
            <==> cap == 1 || !Discards(stream)
  {
    hide Frames, RunAll, Loop, Executed, Decode, Reply;
    if cap > 1 && Discards(stream) {
      ReadWhole(cap, stream);
      var apart := ReadFirstApart(cap, stream);
      ModNext(|Frames(stream).batch| - 1, cap);
      DifferentlyServed(c, b, p, stream, cap, [stream], cap, apart);
    } else {
      forall x, y | Delivers(x, stream) && Delivers(y, stream)
        ensures Outcome(Loop(c, b, cap, p, [], x)) == Outcome(Loop(c, b, cap, p, [], y))
      {
        ExecutedAll(c, b, cap, p, stream, x);
        ExecutedAll(c, b, cap, p, stream, y);
        AlikeServed(c, b, p, stream, cap, x, cap, y);
      }
    }
  }

  /** A stream that discards is served differently by two caps even when it is read whole. */
  lemma CapMatters<S>(c: Config, b: Backend<S>, p: Progress<S>, stream: Blob, n: nat)
    requires Discards(stream) && n > |Frames(stream).batch|
    ensures Delivers([stream], stream)
    ensures Executed(1, [], [stream]) == |Frames(stream).batch| && Executed(n, [], [stream]) == 0
    ensures Outcome(Loop(c, b, 1, p, [], [stream])) != Outcome(Loop(c, b, n, p, [], [stream]))
  {
    hide Frames, RunAll, Loop, Executed, Decode, Reply, FullBatches;
    OneOrNone(|Frames(stream).batch|, n);
    ReadWhole(1, stream);
    ReadWhole(n, stream);
    DifferentlyServed(c, b, p, stream, 1, [stream], n, [stream]);
  }

  /**
   Exactly which streams are served the same whatever the batch cap and however
   they are cut: those without a malformed frame and those that begin with one.
   */
  lemma CapIndependentExactly<S>(c: Config, b: Backend<S>, p: Progress<S>, stream: Blob)
    ensures (forall m, n, x, y :: m > 0 && n > 0 && Delivers(x, stream) && Delivers(y, stream)
                                  ==> Outcome(Loop(c, b, m, p, [], x)) == Outcome(Loop(c, b, n, p, [], y)))
            <==> !Discards(stream)
  {
    hide Frames, RunAll, Loop, Executed, Decode, Reply;
    if Discards(stream) {
      CapMatters(c, b, p, stream, |Frames(stream).batch| + 1);
    } else {
      forall m: nat, n: nat, x, y | m > 0 && n > 0 && Delivers(x, stream) && Delivers(y, stream)
        ensures Outcome(Loop(c, b, m, p, [], x)) == Outcome(Loop(c, b, n, p, [], y))
      {
        ExecutedAll(c, b, m, p, stream, x);
        ExecutedAll(c, b, n, p, stream, y);
        AlikeServed(c, b, p, stream, m, x, n, y);
      }
    }
  }

  /** The header of a frame whose key length is past the ceiling. */
  const BAD_HEADER: Blob := [0, 0, 0, 0, 255, 255, 255, 255]

  /**
   Such a stream: a ping and then a bad header.  Read whole, the ping is answered
   with a cap of one and discarded with the cap the connection has.
   */
  lemma PingDiscarded<S>(c: Config, b: Backend<S>, p: Progress<S>) returns (stream: Blob)
    ensures Discards(stream) && Delivers([stream], stream)
    ensures Frames(stream).batch == [Request(OP_PING, 0, [], [], [])]
    ensures Executed(1, [], [stream]) == 1 && Executed(MAX_BATCH, [], [stream]) == 0
    ensures Outcome(Loop(c, b, 1, p, [], [stream])) != Outcome(Loop(c, b, MAX_BATCH, p, [], [stream]))
  {
    hide Frame, RunAll, Loop, Executed, Reply;
    var ping := Request(OP_PING, 0, [], [], []);
    stream := Frame(ping) + BAD_HEADER;
    assert Le32At(BAD_HEADER, 4) > MAX_FRAME;
    assert Decode(BAD_HEADER) == Malformed;
    DecodeEncoded(ping, BAD_HEADER);
    hide Decode;
    assert Frames(BAD_HEADER) == Drained([], BAD_HEADER, true);
    CapMatters(c, b, p, stream, MAX_BATCH);
  }
}
