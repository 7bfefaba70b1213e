/** Base64 as the REST layer writes values that are not UTF-8. */
module Base64 {
  import opened Bytes

  /** The 64 symbols, in the order of Table 1 of RFC 4648. */
  const ALPHABET: string := Run('A', 26) + Run('a', 26) + Run('0', 10) + "+/"

  function Run(first: char, n: nat): (s: string)
    requires first as int + n < 0x80
    ensures |s| == n && forall i :: 0 <= i < n ==> s[i] == (first as int + i) as char
  {
    seq(n, i requires 0 <= i < n => (first as int + i) as char)
  }

  function Symbol(v: nat): char
    requires v < 64
  {
    ALPHABET[v]
  }

  /** The 24-bit number of up to three octets, zero-filled. */
  function Group(chunk: Blob): (n: nat)
    requires 1 <= |chunk| <= 3
    ensures n < 0x100_0000
  {
    var a: int := chunk[0];
    var b: int := if |chunk| > 1 then chunk[1] else 0;
    var c: int := if |chunk| > 2 then chunk[2] else 0;
    a * 0x1_0000 + b * 0x100 + c
  }

  /** The six-bit value at position `i` of a group. */
  function Sextet(n: nat, i: nat): (v: nat)
    requires i < 4 && n < 0x100_0000
    ensures v < 64
  {
    match i
    case 0 => n / 0x4_0000
    case 1 => n / 0x1000 % 64
    case 2 => n / 0x40 % 64
    case 3 => n % 64
  }

  function Quantum(chunk: Blob): (q: string)
    requires 1 <= |chunk| <= 3
    ensures |q| == 4
  {
    var n := Group(chunk);
    [ Symbol(Sextet(n, 0)),
      Symbol(Sextet(n, 1)),
      if |chunk| > 1 then Symbol(Sextet(n, 2)) else '=',
      if |chunk| > 2 then Symbol(Sextet(n, 3)) else '=' ]
  }

  function Encoded(s: Blob): string {
    if s == [] then [] else if |s| <= 3 then Quantum(s) else Quantum(s[..3]) + Encoded(s[3..])
  }

  method Encode(input: Blob) returns (out: string)
    ensures out == Encoded(input)
  {
    hide Quantum;
    out := [];
    var at := 0;
    while at < |input|
      invariant 0 <= at <= |input|
      invariant out + Encoded(input[at..]) == Encoded(input)
    {
      var end := if at + 3 < |input| then at + 3 else |input|;
      var four := EncodeChunk(input[at..end]);
      OneChunk(input, at, end);
      out := out + four;
      at := end;
    }
  }

  lemma OneChunk(input: Blob, at: nat, end: nat)
    requires at < |input| && end == if at + 3 < |input| then at + 3 else |input|
    ensures Encoded(input[at..]) == Quantum(input[at..end]) + Encoded(input[end..])
  {
    hide Quantum;
    var rest := input[at..];
    if |rest| <= 3 {
      assert input[at..end] == rest && input[end..] == [];
    } else {
      assert input[at..end] == rest[..3] && input[end..] == rest[3..];
    }
  }

  /** The four symbols of one chunk: a 1-byte tail keeps two of them, a 2-byte tail three. */
  method EncodeChunk(chunk: Blob) returns (four: string)
    requires 1 <= |chunk| <= 3
    ensures four == Quantum(chunk)
  {
    hide Symbol;
    var n := Group(chunk);
    var keep := |chunk| + 1;
    four := [];
    for i := 0 to 4
      invariant |four| == i
      invariant forall j :: 0 <= j < i ==> four[j] == if j < keep then Symbol(Sextet(n, j)) else '='
    {
      four := four + [if i < keep then Symbol(Sextet(n, i)) else '='];
    }
  }

  // ---- the standard decoder ----

  /** The value of a symbol, by the ranges of section 4 of RFC 4648. */
  function SymbolValue(c: char): (v: Option<nat>)
    ensures v.Some? ==> v.value < 64
  {
    if 'A' <= c <= 'Z' then Some(c as int - 'A' as int)
    else if 'a' <= c <= 'z' then Some(c as int - 'a' as int + 26)
    else if '0' <= c <= '9' then Some(c as int - '0' as int + 52)
    else if c == '+' then Some(62)
    else if c == '/' then Some(63)
    else None
  }

  /** The octets of one quantum; only the last may be padded. */
  function DecodeQuantum(q: string, last: bool): Option<Blob>
    requires |q| == 4
  {
    var a, b, c, d := SymbolValue(q[0]), SymbolValue(q[1]), SymbolValue(q[2]), SymbolValue(q[3]);
    if a.None? || b.None? then None
    else if c.Some? && d.Some? then
      var n := a.value * 0x4_0000 + b.value * 0x1000 + c.value * 0x40 + d.value;
      Some([n / 0x1_0000, n / 0x100 % 0x100, n % 0x100])
    else if last && c.Some? && q[3] == '=' then
      var n := a.value * 0x4_0000 + b.value * 0x1000 + c.value * 0x40;
      Some([n / 0x1_0000, n / 0x100 % 0x100])
    else if last && q[2] == '=' && q[3] == '=' then
      Some([(a.value * 0x4_0000 + b.value * 0x1000) / 0x1_0000])
    else None
  }

  function Decoded(t: string): Option<Blob> {
    if t == [] then Some([])
    else if |t| < 4 then None
    else
      var front := DecodeQuantum(t[..4], |t| == 4);
      var rest := Decoded(t[4..]);
      if front.None? || rest.None? then None else Some(front.value + rest.value)
  }

  lemma SymbolBack(v: nat)
    requires v < 64
    ensures SymbolValue(Symbol(v)) == Some(v) && Symbol(v) != '='
  {
  }

  lemma SextetsRecompose(n: nat)
    requires n < 0x100_0000
    ensures n == Sextet(n, 0) * 0x4_0000 + Sextet(n, 1) * 0x1000 + Sextet(n, 2) * 0x40 + Sextet(n, 3)
  {
    assert n / 0x40 == n / 0x1000 * 64 + n / 0x40 % 64;
    assert n / 0x1000 == n / 0x4_0000 * 64 + n / 0x1000 % 64;
  }

  lemma GroupOctets(chunk: Blob)
    requires 1 <= |chunk| <= 3
    ensures var n := Group(chunk);
            && n / 0x1_0000 == chunk[0]
            && (if |chunk| > 1 then n / 0x100 % 0x100 == chunk[1] else Sextet(n, 2) == 0)
            && (if |chunk| > 2 then n % 0x100 == chunk[2] else Sextet(n, 3) == 0)
  {
    var n := Group(chunk);
    assert n / 0x100 == chunk[0] * 0x100 + if |chunk| > 1 then chunk[1] as int else 0;
  }

  lemma QuantumBack(chunk: Blob, last: bool)
    requires 1 <= |chunk| <= 3 && (|chunk| < 3 ==> last)
    ensures DecodeQuantum(Quantum(chunk), last) == Some(chunk)
  {
    hide Symbol, SymbolValue, Sextet, Group;
    var n := Group(chunk);
    SymbolBack(Sextet(n, 0));
    SymbolBack(Sextet(n, 1));
    SymbolBack(Sextet(n, 2));
    SymbolBack(Sextet(n, 3));
    PadIsNoSymbol();
    SextetsRecompose(n);
    GroupOctets(chunk);
    if |chunk| == 1 {
      assert chunk == [n / 0x1_0000];
    } else if |chunk| == 2 {
      assert chunk == [n / 0x1_0000, n / 0x100 % 0x100];
    } else {
      assert chunk == [n / 0x1_0000, n / 0x100 % 0x100, n % 0x100];
    }
  }

  lemma PadIsNoSymbol()
    ensures SymbolValue('=') == None
  {
  }

  /** A standard decoder inverts the encoder on every octet string. */
  lemma {:induction false} DecodeInverts(s: Blob)
    ensures Decoded(Encoded(s)) == Some(s)
    decreases |s|
  {
    hide Quantum, DecodeQuantum;
    if |s| > 3 {
      assert Encoded(s)[..4] == Quantum(s[..3]) && Encoded(s)[4..] == Encoded(s[3..]);
      QuantumBack(s[..3], false);
      DecodeInverts(s[3..]);
      EncodedLength(s[3..]);
      assert s[..3] + s[3..] == s;
    } else if s != [] {
      QuantumBack(s, true);
      assert Encoded(s)[..4] == Quantum(s) && Encoded(s)[4..] == [];
      assert s + [] == s;
    }
  }

  lemma EncodeInjective(s: Blob, t: Blob)
    requires Encoded(s) == Encoded(t)
    ensures s == t
  {
    DecodeInverts(s);
    DecodeInverts(t);
  }

  lemma {:induction false} EncodedLength(s: Blob)
    ensures |Encoded(s)| == (|s| + 2) / 3 * 4
    decreases |s|
  {
    hide Quantum;
    if |s| > 3 {
      EncodedLength(s[3..]);
    }
  }

  /** Octets missing from the last group. */
  function Missing(n: nat): nat {
    if n % 3 == 0 then 0 else 3 - n % 3
  }

  /** Padding appears only in the last quantum, one `=` for each octet missing from it. */
  lemma {:induction false} PaddingOnlyAtEnd(s: Blob, i: nat)
    requires i < |Encoded(s)|
    ensures Encoded(s)[i] == '=' <==> i >= |Encoded(s)| - Missing(|s|)
    decreases |s|
  {
    hide Quantum;
    EncodedLength(s);
    if |s| > 3 {
      QuantumPadding(s[..3]);
      EncodedLength(s[3..]);
      if i >= 4 {
        PaddingOnlyAtEnd(s[3..], i - 4);
      }
    } else if s != [] {
      QuantumPadding(s);
    }
  }

  lemma QuantumPadding(chunk: Blob)
    requires 1 <= |chunk| <= 3
    ensures forall i :: 0 <= i < 4 ==> (Quantum(chunk)[i] == '=' <==> i > |chunk|)
  {
    var n := Group(chunk);
    SymbolBack(Sextet(n, 0));
    SymbolBack(Sextet(n, 1));
    SymbolBack(Sextet(n, 2));
    SymbolBack(Sextet(n, 3));
  }
}
