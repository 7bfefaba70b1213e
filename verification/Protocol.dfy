/** Frames of the binary wire protocol: requests, responses and their encodings. */
module Protocol {
  import opened Bytes

  const OP_PING: Byte := 0x00
  const OP_GET: Byte := 0x01
  const OP_SET: Byte := 0x02
  const OP_DEL: Byte := 0x03
  const OP_AUTH: Byte := 0x05

  const STATUS_OK: Byte := 0x00
  const STATUS_NOT_FOUND: Byte := 0x01
  const STATUS_BAD_REQUEST: Byte := 0x02
  const STATUS_UNKNOWN_KEYSPACE: Byte := 0x03
  const STATUS_PONG: Byte := 0x05
  const STATUS_UNAUTHORIZED: Byte := 0x0a

  const MAX_FRAME: nat := 64 * 1024 * 1024

  /** A growable byte buffer, appended to at the back and consumed from the front. */
  class Buffer {
    var data: Blob

    constructor ()
      ensures data == []
    {
      data := [];
    }

    method PutU8(b: Byte)
      modifies this
      ensures data == old(data) + [b]
    {
      data := data + [b];
    }

    method PutU16Le(n: nat)
      requires n < 0x1_0000
      modifies this
      ensures data == old(data) + Le16(n)
    {
      data := data + Le16(n);
    }

    method PutU32Le(n: nat)
      requires n < 0x1_0000_0000
      modifies this
      ensures data == old(data) + Le32(n)
    {
      data := data + Le32(n);
    }

    method PutSlice(s: Blob)
      modifies this
      ensures data == old(data) + s
    {
      data := data + s;
    }

    method SplitTo(n: nat) returns (front: Blob)
      requires n <= |data|
      modifies this
      ensures front + data == old(data) && |front| == n
    {
      front := data[..n];
      data := data[n..];
    }

    method Clear()
      modifies this
      ensures data == []
    {
      data := [];
    }
  }

  datatype Request = Request(op: Byte, flags: Byte, keyspace: Blob, key: Blob, value: Blob)

  /** A request as the wire carries it.  Each length is cut to its field's width. */
  function Frame(r: Request): Blob {
    [r.op, r.flags]
    + Le16(|r.keyspace| % 0x1_0000) + r.keyspace
    + Le32(|r.key| % 0x1_0000_0000) + r.key
    + Le32(|r.value| % 0x1_0000_0000) + r.value
  }

  method EncodeRequest(out: Buffer, op: Byte, keyspace: Blob, key: Blob, value: Blob)
    modifies out
    ensures out.data == old(out.data) + Frame(Request(op, 0, keyspace, key, value))
  {
    out.PutU8(op);
    out.PutU8(0);
    out.PutU16Le(|keyspace| % 0x1_0000);
    out.PutSlice(keyspace);
    out.PutU32Le(|key| % 0x1_0000_0000);
    out.PutSlice(key);
    out.PutU32Le(|value| % 0x1_0000_0000);
    out.PutSlice(value);
  }

  datatype Response =
    | Ok
    | ValueShared(value: Blob)
    | NotFound
    | Pong
    | BadRequest
    | UnknownKeyspace
    | Unauthorized

  function Status(r: Response): Byte {
    match r
    case Ok => STATUS_OK
    case ValueShared(_) => STATUS_OK
    case NotFound => STATUS_NOT_FOUND
    case Pong => STATUS_PONG
    case BadRequest => STATUS_BAD_REQUEST
    case UnknownKeyspace => STATUS_UNKNOWN_KEYSPACE
    case Unauthorized => STATUS_UNAUTHORIZED
  }

  function Payload(r: Response): Blob {
    if r.ValueShared? then r.value else []
  }

  /** A response as the wire carries it. */
  function Reply(r: Response): Blob {
    [Status(r)] + Le32(|Payload(r)| % 0x1_0000_0000) + Payload(r)
  }

  method EncodeResponse(r: Response, out: Buffer)
    modifies out
    ensures out.data == old(out.data) + Reply(r)
  {
    match r
    case ValueShared(v) =>
      out.PutU8(STATUS_OK);
      out.PutU32Le(|v| % 0x1_0000_0000);
      out.PutSlice(v);
    case Ok => EncodeEmpty(STATUS_OK, out);
    case NotFound => EncodeEmpty(STATUS_NOT_FOUND, out);
    case Pong => EncodeEmpty(STATUS_PONG, out);
    case BadRequest => EncodeEmpty(STATUS_BAD_REQUEST, out);
    case UnknownKeyspace => EncodeEmpty(STATUS_UNKNOWN_KEYSPACE, out);
    case Unauthorized => EncodeEmpty(STATUS_UNAUTHORIZED, out);
  }

  method EncodeEmpty(status: Byte, out: Buffer)
    modifies out
    ensures out.data == old(out.data) + [status] + Le32(0)
  {
    out.PutU8(status);
    out.PutU32Le(0);
  }

  function Replies(rs: seq<Response>): Blob {
    if rs == [] then [] else Replies(rs[..|rs| - 1]) + Reply(rs[|rs| - 1])
  }

  /** A length field is its number's bytes, the least significant first. */
  lemma LengthsLittleEndian(n: nat)
    requires n < 0x1_0000_0000
    ensures var s := Le32(n); s[0] as int + 0x100 * s[1] as int + 0x1_0000 * s[2] as int + 0x100_0000 * s[3] as int == n
    ensures n < 0x1_0000 ==> var s := Le16(n); s[0] as int + 256 * s[1] as int == n
  {
    Le32Bytes(n);
    hide Le32;
    var x := n / 256;
    var y := x / 256;
    assert n == 256 * x + n % 256 && x == 256 * y + x % 256 && y == 256 * (y / 256) + y % 256;
  }

  /** Every reply without a payload, byte for byte, and how a value's begins. */
  lemma RepliesOnTheWire(v: Blob)
    ensures Reply(Ok) == [0x00, 0, 0, 0, 0] && Reply(NotFound) == [0x01, 0, 0, 0, 0]
    ensures Reply(BadRequest) == [0x02, 0, 0, 0, 0] && Reply(UnknownKeyspace) == [0x03, 0, 0, 0, 0]
    ensures Reply(Pong) == [0x05, 0, 0, 0, 0] && Reply(Unauthorized) == [0x0a, 0, 0, 0, 0]
    ensures |v| < 0x1_0000_0000 ==> Reply(ValueShared(v)) == [0x00] + Le32(|v|) + v
  {
    hide Reply;
    EmptyReply(Ok);
    EmptyReply(NotFound);
    EmptyReply(BadRequest);
    EmptyReply(UnknownKeyspace);
    EmptyReply(Pong);
    EmptyReply(Unauthorized);
    ValueReply(v);
  }

  lemma EmptyReply(r: Response)
    requires !r.ValueShared?
    ensures Reply(r) == [Status(r), 0, 0, 0, 0]
  {
    hide Status;
    assert Le32(0) == [0, 0, 0, 0];
  }

  lemma ValueReply(v: Blob)
    ensures |v| < 0x1_0000_0000 ==> Reply(ValueShared(v)) == [Status(ValueShared(v))] + Le32(|v|) + v
  {
    hide Status, Le32;
  }

  /** A request on the wire, byte for byte: SET of `key` to `value` in a one-letter keyspace. */
  lemma RequestOnTheWire(letter: Byte, key: Byte, first: Byte, second: Byte)
    ensures Frame(Request(OP_SET, 0, [letter], [key], [first, second])) ==
              [0x02, 0, 1, 0, letter, 1, 0, 0, 0, key, 2, 0, 0, 0, first, second]
    ensures [OP_PING, OP_GET, OP_SET, OP_DEL, OP_AUTH] == [0x00, 0x01, 0x02, 0x03, 0x05]
  {
    assert Le16(1) == [1, 0] && Le32(1) == [1, 0, 0, 0] && Le32(2) == [2, 0, 0, 0];
  }

  // ---- reading replies back ----

  /** What a client can tell of a response: its status and its payload. */
  datatype Seen = Seen(status: Byte, payload: Blob)

  function Saw(r: Response): Seen {
    Seen(Status(r), Payload(r))
  }

  /** A client reading length-prefixed replies off a stream until no whole one is left. */
  function ReadReplies(b: Blob): (seq<Seen>, Blob)
    decreases |b|
  {
    if |b| < 5 || |b| < 5 + Le32At(b, 1) then ([], b)
    else
      var n := Le32At(b, 1);
      var (more, rest) := ReadReplies(b[5 + n..]);
      ([Seen(b[0], b[5..5 + n])] + more, rest)
  }

  /** Payloads whose length survives its 32-bit field. */
  predicate Sendable(r: Response) {
    |Payload(r)| < 0x1_0000_0000
  }

  lemma ReplyShape(r: Response, tail: Blob)
    ensures var b := Reply(r) + tail;
            var n := |Payload(r)|;
            && |b| == 5 + n + |tail| && b[0] == Status(r) && Le32At(b, 1) == n % 0x1_0000_0000
            && b[5..5 + n] == Payload(r) && b[5 + n..] == tail
  {
    hide Le32At, FromLe32, Le32, Status, Payload;
    var b := Reply(r) + tail;
    var n := |Payload(r)|;
    var m := n % 0x1_0000_0000;
    assert b[1..5] == Le32(m);
    Le32Read(b, 1, m);
  }

  lemma ReadOne(r: Response, tail: Blob)
    requires Sendable(r)
    ensures ReadReplies(Reply(r) + tail) == ([Saw(r)] + ReadReplies(tail).0, ReadReplies(tail).1)
  {
    hide Le32At, FromLe32, Le32, Status, Payload, Reply;
    ReplyShape(r, tail);
  }

  function SawAll(rs: seq<Response>): seq<Seen> {
    if rs == [] then [] else SawAll(rs[..|rs| - 1]) + [Saw(rs[|rs| - 1])]
  }

  /** The replies of a whole run, concatenated, read back as exactly those replies in order. */
  lemma {:induction false} RepliesReadBack(rs: seq<Response>, tail: Blob)
    requires forall i :: 0 <= i < |rs| ==> Sendable(rs[i])
    ensures ReadReplies(Replies(rs) + tail) == (SawAll(rs) + ReadReplies(tail).0, ReadReplies(tail).1)
    decreases |rs|
  {
    hide Le32At, FromLe32, Le32, Status, Payload, Reply, ReadReplies;
    if rs == [] {
      assert Replies(rs) + tail == tail && SawAll(rs) + ReadReplies(tail).0 == ReadReplies(tail).0;
    } else {
      var front, last := rs[..|rs| - 1], rs[|rs| - 1];
      assert Replies(rs) + tail == Replies(front) + (Reply(last) + tail);
      RepliesReadBack(front, Reply(last) + tail);
      ReadOne(last, tail);
      assert SawAll(front) + ([Saw(last)] + ReadReplies(tail).0) == SawAll(rs) + ReadReplies(tail).0;
    }
  }

  /**
   Two responses are indistinguishable on the wire exactly when they are equal or
   are the reply to a SET or DEL and a hit on an empty value.
   */
  lemma RepliesCollide(r: Response, s: Response)
    requires Sendable(r) && Sendable(s)
    ensures Reply(r) == Reply(s) <==>
              r == s || (r == Ok && s == ValueShared([])) || (s == Ok && r == ValueShared([]))
  {
    hide Le32At, FromLe32, Le32;
    ReplyShape(r, []);
    ReplyShape(s, []);
    assert Reply(r) + [] == Reply(r) && Reply(s) + [] == Reply(s);
  }

  /** The 32-bit length field is why values must be shorter than 4 GiB: exactly then a reply reads back. */
  lemma SendableExactly(r: Response, tail: Blob)
    ensures ReadReplies(Reply(r) + tail) == ([Saw(r)] + ReadReplies(tail).0, ReadReplies(tail).1) <==> Sendable(r)
  {
    hide Le32At, FromLe32, Le32, Status, Payload, Reply;
    ReplyShape(r, tail);
    var b := Reply(r) + tail;
    if Sendable(r) {
      ReadOne(r, tail);
    } else if |b| >= 5 + Le32At(b, 1) {
      assert |ReadReplies(b).0[0].payload| < 0x1_0000_0000;
    }
  }
}
