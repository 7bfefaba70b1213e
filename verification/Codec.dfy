/** The incremental request decoder, and the frames it recognises. */
module Codec {
  import opened Bytes
  import opened Protocol

  const HEADER_MIN: nat := 4

  datatype Decoded =
    | Done(request: Request, rest: Blob)
    | NeedMore
    | Malformed

  /** What one attempt to decode makes of the bytes received so far. */
  function Decode(b: Blob): (d: Decoded)
    ensures d.Done? ==> |d.rest| + 12 <= |b|
  {
    if |b| < HEADER_MIN then NeedMore
    else
      var ks := Le16At(b, 2);
      var p1 := HEADER_MIN + ks;
      if |b| < p1 + 4 then NeedMore
      else
        var kl := Le32At(b, p1);
        if kl > MAX_FRAME then Malformed
        else
          var p2 := p1 + 4 + kl;
          if |b| < p2 + 4 then NeedMore
          else
            var vl := Le32At(b, p2);
            if vl > MAX_FRAME then Malformed
            else
              var end := p2 + 4 + vl;
              if |b| < end then NeedMore
              else Done(Request(b[0], b[1], b[HEADER_MIN..p1], b[p1 + 4..p2], b[p2 + 4..end]), b[end..])
  }

  /**
   Parse one request off the front of the buffer.  On success the frame is split
   off; in every other case the buffer is untouched.  A keyspace length, being
   16 bits, is always below MAX_FRAME, so that check of the decoder cannot fail.
   */
  method DecodeOne(buf: Buffer) returns (got: Option<Request>, malformed: bool)
    modifies buf
    ensures match Decode(old(buf.data))
            case Done(r, rest) => got == Some(r) && !malformed && buf.data == rest
            case NeedMore => got == None && !malformed && buf.data == old(buf.data)
            case Malformed => got == None && malformed && buf.data == old(buf.data)
  {
    hide Le16At, Le32At;
    ghost var b := buf.data;
    got, malformed := None, false;
    if |buf.data| < HEADER_MIN {
      return;
    }
    var op, flags := buf.data[0], buf.data[1];
    var keyspaceLen := Le16At(buf.data, 2);
    var pos := HEADER_MIN;
    if |buf.data| < pos + keyspaceLen + 4 {
      return;
    }
    var keyspaceStart := pos;
    pos := pos + keyspaceLen;
    var keyLen := Le32At(buf.data, pos);
    pos := pos + 4;
    if keyLen > MAX_FRAME {
      return None, true;
    }
    if |buf.data| < pos + keyLen + 4 {
      return;
    }
    var keyStart := pos;
    pos := pos + keyLen;
    var valLen := Le32At(buf.data, pos);
    pos := pos + 4;
    if valLen > MAX_FRAME {
      return None, true;
    }
    if |buf.data| < pos + valLen {
      return;
    }
    var valStart := pos;
    var frame := buf.SplitTo(pos + valLen);
    assert frame == b[..pos + valLen] && buf.data == b[pos + valLen..];
    assert frame[keyspaceStart..keyspaceStart + keyspaceLen] == b[keyspaceStart..keyspaceStart + keyspaceLen];
    assert frame[keyStart..keyStart + keyLen] == b[keyStart..keyStart + keyLen];
    assert frame[valStart..valStart + valLen] == b[valStart..valStart + valLen];
    got := Some(Request(op, flags,
                        frame[keyspaceStart..keyspaceStart + keyspaceLen],
                        frame[keyStart..keyStart + keyLen],
                        frame[valStart..valStart + valLen]));
  }

  // ---- the decoder recognises exactly the frames ----

  /** Requests whose lengths fit their fields and the decoder's ceiling. */
  predicate WellSized(r: Request) {
    |r.keyspace| < 0x1_0000 && |r.key| <= MAX_FRAME && |r.value| <= MAX_FRAME
  }

  lemma FrameLength(r: Request)
    ensures |Frame(r)| == 12 + |r.keyspace| + |r.key| + |r.value|
  {
    hide Le16, Le32;
  }

  /** The pieces of a frame, in any buffer that starts with it. */
  lemma FramePieces(r: Request, tail: Blob)
    requires WellSized(r)
    ensures var b := Frame(r) + tail;
            var p1 := 4 + |r.keyspace|;
            var p2 := p1 + 4 + |r.key|;
            var end := p2 + 4 + |r.value|;
            && |b| == end + |tail|
            && b[0] == r.op && b[1] == r.flags && b[2..4] == Le16(|r.keyspace|) && b[4..p1] == r.keyspace
            && b[p1..p1 + 4] == Le32(|r.key|) && b[p1 + 4..p2] == r.key
            && b[p2..p2 + 4] == Le32(|r.value|) && b[p2 + 4..end] == r.value && b[end..] == tail
  {
    hide Le16, Le32;
    var b := Frame(r) + tail;
    var x0 := [r.op, r.flags];
    var x1 := x0 + Le16(|r.keyspace|);
    var x2 := x1 + r.keyspace;
    var x3 := x2 + Le32(|r.key|);
    var x4 := x3 + r.key;
    var x5 := x4 + Le32(|r.value|);
    assert Frame(r) == x5 + r.value;
    assert b[..|x5 + r.value|] == x5 + r.value;
    Piece(b, x5, r.value);
    Piece(b, x4, Le32(|r.value|));
    Piece(b, x3, r.key);
    Piece(b, x2, Le32(|r.key|));
    Piece(b, x1, r.keyspace);
    Piece(b, x0, Le16(|r.keyspace|));
  }

  /** Where the fields of a frame lie in any buffer that starts with it. */
  lemma FrameShape(r: Request, tail: Blob)
    requires WellSized(r)
    ensures var b := Frame(r) + tail;
            var p1 := 4 + |r.keyspace|;
            var p2 := p1 + 4 + |r.key|;
            var end := p2 + 4 + |r.value|;
            && |b| == end + |tail|
            && b[0] == r.op && b[1] == r.flags && Le16At(b, 2) == |r.keyspace| && b[4..p1] == r.keyspace
            && Le32At(b, p1) == |r.key| && b[p1 + 4..p2] == r.key
            && Le32At(b, p2) == |r.value| && b[p2 + 4..end] == r.value && b[end..] == tail
  {
    hide Frame, Le16, Le32, Le16At, Le32At;
    FramePieces(r, tail);
    var b := Frame(r) + tail;
    var p1 := 4 + |r.keyspace|;
    Le16Read(b, 2, |r.keyspace|);
    Le32Read(b, p1, |r.key|);
    Le32Read(b, p1 + 4 + |r.key|, |r.value|);
  }

  lemma Piece(b: Blob, x: Blob, y: Blob)
    requires |x| + |y| <= |b| && b[..|x + y|] == x + y
    ensures b[|x|..|x| + |y|] == y && b[..|x|] == x
  {
    assert forall i :: 0 <= i < |x + y| ==> b[i] == b[..|x + y|][i];
  }

  /** An encoded request followed by anything decodes to its fields and leaves exactly the rest. */
  lemma DecodeEncoded(r: Request, tail: Blob)
    requires WellSized(r)
    ensures Decode(Frame(r) + tail) == Done(r, tail)
  {
    hide Frame, Le16At, Le32At;
    FrameShape(r, tail);
  }

  lemma Cut(b: Blob, i: nat, j: nat)
    requires i <= j <= |b|
    ensures b[..j] == b[..i] + b[i..j]
  {
  }

  /** The bytes any success consumes are the encoding of what it returns. */
  lemma DecodeSound(b: Blob)
    requires Decode(b).Done?
    ensures var d := Decode(b);
            && WellSized(d.request) && b == Frame(d.request) + d.rest
            && |b| >= |d.rest| + 12
  {
    hide Le16, Le32, Le16At, Le32At;
    var r, rest := Decode(b).request, Decode(b).rest;
    var ks := Le16At(b, 2);
    var p1 := 4 + ks;
    var kl := Le32At(b, p1);
    var p2 := p1 + 4 + kl;
    var vl := Le32At(b, p2);
    var end := p2 + 4 + vl;
    Le16Read(b, 2, ks);
    Le32Read(b, p1, kl);
    Le32Read(b, p2, vl);
    FrameOfSlices(r, b, p1, p2, end);
  }

  /** A buffer cut into the fields of a frame is that frame. */
  lemma FrameOfSlices(r: Request, b: Blob, p1: nat, p2: nat, end: nat)
    requires 4 <= p1 && p1 + 4 <= p2 && p2 + 4 <= end <= |b|
    requires b[0] == r.op && b[1] == r.flags && b[4..p1] == r.keyspace
    requires b[p1 + 4..p2] == r.key && b[p2 + 4..end] == r.value && WellSized(r)
    requires b[2..4] == Le16(|r.keyspace|) && b[p1..p1 + 4] == Le32(|r.key|) && b[p2..p2 + 4] == Le32(|r.value|)
    ensures b == Frame(r) + b[end..]
  {
    hide Le16, Le32;
    assert b[..4] == [r.op, r.flags] + Le16(|r.keyspace|);
    Cut(b, 4, p1);
    Cut(b, p1, p1 + 4);
    Cut(b, p1 + 4, p2);
    Cut(b, p2, p2 + 4);
    Cut(b, p2 + 4, end);
    assert b[..end] == Frame(r);
    assert b == b[..end] + b[end..];
  }

  /** Decoding recovers the fields of an encoded request exactly when they are well sized. */
  lemma RoundTripExactly(r: Request, tail: Blob)
    ensures Decode(Frame(r) + tail) == Done(r, tail) <==>
              |r.keyspace| <= 65535 && |r.key| <= 67108864 && |r.value| <= 67108864
  {
    hide Decode, Frame;
    if WellSized(r) {
      DecodeEncoded(r, tail);
    } else if Decode(Frame(r) + tail).Done? {
      DecodeSound(Frame(r) + tail);
    }
  }

  /** No frame is a prefix of another: a buffer starts with at most one frame. */
  lemma UniquelyDecodable(r: Request, s: Request, x: Blob, y: Blob)
    requires WellSized(r) && WellSized(s) && Frame(r) + x == Frame(s) + y
    ensures r == s && x == y
  {
    hide Decode, Frame;
    DecodeEncoded(r, x);
    DecodeEncoded(s, y);
  }

  // ---- growing the buffer ----

  lemma LengthsStable(b: Blob, more: Blob, at: nat)
    ensures at + 2 <= |b| ==> Le16At(b + more, at) == Le16At(b, at)
    ensures at + 4 <= |b| ==> Le32At(b + more, at) == Le32At(b, at)
  {
  }

  /** Success and failure do not change when more bytes arrive; only waiting can. */
  lemma DecodeStable(b: Blob, more: Blob)
    ensures Decode(b).Malformed? ==> Decode(b + more).Malformed?
    ensures Decode(b).Done? ==> Decode(b + more) == Done(Decode(b).request, Decode(b).rest + more)
  {
    hide Frame, Le16At, Le32At;
    if Decode(b).Done? {
      var r, rest := Decode(b).request, Decode(b).rest;
      DecodeSound(b);
      assert b + more == Frame(r) + (rest + more);
      DecodeEncoded(r, rest + more);
    } else if Decode(b).Malformed? {
      LengthsStable(b, more, 2);
      LengthsStable(b, more, 4 + Le16At(b, 2));
      LengthsStable(b, more, 8 + Le16At(b, 2) + Le32At(b, 4 + Le16At(b, 2)));
    }
  }

  // ---- waiting ----

  function Zeros(n: nat): (s: Blob)
    ensures |s| == n && forall i :: 0 <= i < n ==> s[i] == 0
  {
    seq(n, _ => 0)
  }

  /** However far an incomplete buffer is from a frame, zeros bring it there. */
  lemma WaitingCanFinish(b: Blob) returns (more: Blob)
    requires Decode(b).NeedMore?
    ensures more != [] && Decode(b + more).Done? && Decode(b + more).rest == []
  {
    if |b| < HEADER_MIN {
      more := FinishHeader(b);
    } else if |b| < 4 + Le16At(b, 2) + 4 {
      more := FinishKeyspace(b);
    } else if |b| < 8 + Le16At(b, 2) + Le32At(b, 4 + Le16At(b, 2)) + 4 {
      more := FinishKey(b);
    } else {
      more := FinishValue(b);
    }
  }

  lemma FinishValue(b: Blob) returns (more: Blob)
    requires Decode(b).NeedMore? && |b| >= HEADER_MIN && |b| >= 8 + Le16At(b, 2)
    requires |b| >= 12 + Le16At(b, 2) + Le32At(b, 4 + Le16At(b, 2))
    ensures more != [] && Decode(b + more).Done? && Decode(b + more).rest == []
  {
    hide Le16At, Le32At;
    var p1 := 4 + Le16At(b, 2);
    var p2 := p1 + 4 + Le32At(b, p1);
    more := Zeros(p2 + 4 + Le32At(b, p2) - |b|);
    LengthsStable(b, more, 2);
    LengthsStable(b, more, p1);
    LengthsStable(b, more, p2);
  }

  /** A partly received length field below the ceiling stays below it when zeros complete it. */
  lemma SmallField(b: Blob, at: nat)
    requires at + 4 <= |b| && b[at + 3] == 0
    ensures Le32At(b, at) <= MAX_FRAME
  {
  }

  lemma FinishKey(b: Blob) returns (more: Blob)
    requires Decode(b).NeedMore? && |b| >= HEADER_MIN && |b| >= 8 + Le16At(b, 2)
    requires |b| < 12 + Le16At(b, 2) + Le32At(b, 4 + Le16At(b, 2))
    ensures more != [] && Decode(b + more).Done? && Decode(b + more).rest == []
  {
    hide Le16At, Le32At;
    var p1 := 4 + Le16At(b, 2);
    var p2 := p1 + 4 + Le32At(b, p1);
    var z := Zeros(p2 + 4 - |b|);
    LengthsStable(b, z, 2);
    LengthsStable(b, z, p1);
    SmallField(b + z, p2);
    if Decode(b + z).Done? {
      more := z;
    } else {
      more := FinishValue(b + z);
      assert b + (z + more) == b + z + more;
      more := z + more;
    }
  }

  lemma FinishKeyspace(b: Blob) returns (more: Blob)
    requires |b| >= HEADER_MIN && |b| < 8 + Le16At(b, 2)
    ensures more != [] && Decode(b + more).Done? && Decode(b + more).rest == []
  {
    hide Le16At, Le32At;
    var p1 := 4 + Le16At(b, 2);
    var z := Zeros(p1 + 4 - |b|);
    LengthsStable(b, z, 2);
    SmallField(b + z, p1);
    more := FinishKey(b + z);
    assert b + (z + more) == b + z + more;
    more := z + more;
  }

  lemma FinishHeader(b: Blob) returns (more: Blob)
    requires |b| < HEADER_MIN
    ensures more != [] && Decode(b + more).Done? && Decode(b + more).rest == []
  {
    hide Le16At, Le32At;
    var z := Zeros(HEADER_MIN - |b|);
    more := FinishKeyspace(b + z);
    assert b + (z + more) == b + z + more;
    more := z + more;
  }

  /** `b` is a proper prefix of some well-sized frame. */
  ghost predicate Incomplete(b: Blob) {
    exists r, more :: WellSized(r) && more != [] && b + more == Frame(r)
  }

  /** `b` starts with some well-sized frame. */
  ghost predicate StartsWithFrame(b: Blob) {
    exists r, rest :: WellSized(r) && b == Frame(r) + rest
  }

  /**
   The three answers mean exactly what they say: success when the buffer starts
   with a frame, waiting when it is the beginning of one, malformed when it is
   neither and never can be.
   */
  lemma DecodeExactly(b: Blob)
    ensures Decode(b).Done? <==> StartsWithFrame(b)
    ensures Decode(b).NeedMore? <==> Incomplete(b)
    ensures Decode(b).Malformed? <==> !StartsWithFrame(b) && !Incomplete(b)
  {
    hide Decode, Frame, WellSized;
    if StartsWithFrame(b) {
      var r, rest :| WellSized(r) && b == Frame(r) + rest;
      DecodeEncoded(r, rest);
    }
    if Incomplete(b) {
      var r, more :| WellSized(r) && more != [] && b + more == Frame(r);
      assert Frame(r) + [] == Frame(r);
      DecodeEncoded(r, []);
      DecodeStable(b, more);
    }
    if Decode(b).Done? {
      DecodeSound(b);
    }
    if Decode(b).NeedMore? {
      var more := WaitingCanFinish(b);
      DecodeSound(b + more);
      assert Frame(Decode(b + more).request) + [] == Frame(Decode(b + more).request);
    }
  }
}
