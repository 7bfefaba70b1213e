/** Comparing a presented token with the configured one, and undoing percent-encoding. */
module Auth {
  import opened Bytes

  /** Bitwise exclusive or. */
  function BitXor(a: nat, b: nat): nat {
    if a == 0 && b == 0 then 0 else 2 * BitXor(a / 2, b / 2) + if a % 2 == b % 2 then 0 else 1
  }

  /** Bitwise or. */
  function BitOr(a: nat, b: nat): nat {
    if a == 0 && b == 0 then 0 else 2 * BitOr(a / 2, b / 2) + if a % 2 == 0 && b % 2 == 0 then 0 else 1
  }

  lemma {:induction false} XorZero(a: nat, b: nat)
    ensures BitXor(a, b) == 0 <==> a == b
  {
    if a != 0 || b != 0 {
      XorZero(a / 2, b / 2);
    }
  }

  lemma {:induction false} OrZero(a: nat, b: nat)
    ensures BitOr(a, b) == 0 <==> a == 0 && b == 0
  {
    if a != 0 || b != 0 {
      OrZero(a / 2, b / 2);
    }
  }

  /** Compare two byte strings, visiting every pair whatever the earlier ones held. */
  method ConstantTimeEq(a: Blob, b: Blob) returns (same: bool)
    ensures same <==> a == b
  {
    hide BitXor, BitOr;
    if |a| != |b| {
      return false;
    }
    var diff: nat := 0;
    for i := 0 to |a|
      invariant diff == 0 <==> a[..i] == b[..i]
    {
      XorZero(a[i], b[i]);
      OrZero(diff, BitXor(a[i], b[i]));
      assert a[..i + 1] == a[..i] + [a[i]] && b[..i + 1] == b[..i] + [b[i]];
      diff := BitOr(diff, BitXor(a[i], b[i]));
    }
    assert a[..|a|] == a && b[..|b|] == b;
    same := diff == 0;
  }

  // ---- percent-encoding ----

  const PERCENT: Byte := 0x25
  const PLUS: Byte := 0x2b
  const SPACE: Byte := 0x20

  function HexVal(b: Byte): (v: Option<nat>)
    ensures v.Some? ==> v.value < 16
  {
    if 0x30 <= b <= 0x39 then Some(b - 0x30)
    else if 0x61 <= b <= 0x66 then Some(b - 0x61 + 10)
    else if 0x41 <= b <= 0x46 then Some(b - 0x41 + 10)
    else None
  }

  /** A percent sign with two hexadecimal digits after it. */
  predicate EscapeAt(s: Blob, i: nat)
  {
    i + 2 < |s| && s[i] == PERCENT && HexVal(s[i + 1]).Some? && HexVal(s[i + 2]).Some?
  }

  function Unescape(s: Blob): (r: Blob)
    ensures |r| <= |s|
  {
    if s == [] then []
    else if s[0] == PLUS then [SPACE] + Unescape(s[1..])
    else if EscapeAt(s, 0) then [HexVal(s[1]).value * 16 + HexVal(s[2]).value] + Unescape(s[3..])
    else [s[0]] + Unescape(s[1..])
  }

  /** What decoding does at one position. */
  lemma UnescapeAt(s: Blob, i: nat)
    requires i < |s|
    ensures Unescape(s[i..]) ==
              if s[i] == PLUS then [SPACE] + Unescape(s[i + 1..])
              else if EscapeAt(s, i) then [HexVal(s[i + 1]).value * 16 + HexVal(s[i + 2]).value] + Unescape(s[i + 3..])
              else [s[i]] + Unescape(s[i + 1..])
  {
    hide HexVal;
    var rest := s[i..];
    assert rest[1..] == s[i + 1..];
    assert i + 3 <= |s| ==> rest[3..] == s[i + 3..];
    assert EscapeAt(rest, 0) <==> EscapeAt(s, i);
  }

  /** Decode a query-parameter value as bytes. */
  method PercentDecode(input: Blob) returns (out: Blob)
    ensures out == Unescape(input)
  {
    hide Unescape, HexVal;
    out := [];
    var i := 0;
    assert input[0..] == input;
    while i < |input|
      invariant 0 <= i <= |input|
      invariant out + Unescape(input[i..]) == Unescape(input)
    {
      UnescapeAt(input, i);
      ghost var sofar := out;
      var b := input[i];
      if b == PLUS {
        out := out + [SPACE];
        i := i + 1;
      } else if b == PERCENT && i + 2 < |input| {
        var hi, lo := HexVal(input[i + 1]), HexVal(input[i + 2]);
        if hi.Some? && lo.Some? {
          out := out + [hi.value * 16 + lo.value];
          i := i + 3;
        } else {
          out := out + [b];
          i := i + 1;
        }
      } else {
        out := out + [b];
        i := i + 1;
      }
      Joined(sofar, out[|sofar|], Unescape(input[i..]));
    }
    UnescapeNothing();
    assert input[i..] == [];
  }

  lemma Joined(a: Blob, x: Byte, b: Blob)
    ensures a + [x] + b == a + ([x] + b)
  {
  }

  lemma UnescapeNothing()
    ensures Unescape([]) == []
  {
  }

  /** How an encoder may choose to write one byte. */
  datatype Style = Literal | AsPlus | Escaped(upperHigh: bool, upperLow: bool)

  function HexDigit(v: nat, upper: bool): Byte
    requires v < 16
  {
    if v < 10 then 0x30 + v else if upper then 0x41 + v - 10 else 0x61 + v - 10
  }

  /** One byte as written; `%` and `+` are always escaped and only a space may become `+`. */
  function EncodeByte(b: Byte, style: Style): Blob {
    if style.Literal? && b != 0x25 && b != 0x2b then [b]
    else if style.AsPlus? && b == 0x20 then [0x2b]
    else
      var high := if style.Escaped? then style.upperHigh else true;
      var low := if style.Escaped? then style.upperLow else true;
      [0x25, HexDigit(b / 16, high), HexDigit(b % 16, low)]
  }

  function PercentEncode(s: Blob, styles: seq<Style>): Blob
    requires |styles| == |s|
  {
    if s == [] then [] else EncodeByte(s[0], styles[0]) + PercentEncode(s[1..], styles[1..])
  }

  lemma HexDigitBack(v: nat, upper: bool)
    requires v < 16
    ensures HexVal(HexDigit(v, upper)) == Some(v)
  {
  }

  lemma UnescapeFirst(b: Byte, style: Style, tail: Blob)
    ensures Unescape(EncodeByte(b, style) + tail) == [b] + Unescape(tail)
  {
    var e := EncodeByte(b, style) + tail;
    if |EncodeByte(b, style)| == 3 {
      HexDigitBack(b / 16, true);
      HexDigitBack(b / 16, false);
      HexDigitBack(b % 16, true);
      HexDigitBack(b % 16, false);
      assert e[3..] == tail;
    } else {
      assert e[1..] == tail;
    }
  }

  /**
   Decoding inverts every encoder that escapes at least `%` and `+`, whatever
   else it escapes, in either hexadecimal case, with spaces written either way
   (section 2.1 of RFC 3986, and `+` for a space in form data).
   */
  lemma {:induction false} UnescapeInvertsEncoders(s: Blob, styles: seq<Style>)
    requires |styles| == |s|
    ensures Unescape(PercentEncode(s, styles)) == s
  {
    if s == [] {
    } else {
      UnescapeFirst(s[0], styles[0], PercentEncode(s[1..], styles[1..]));
      UnescapeInvertsEncoders(s[1..], styles[1..]);
    }
  }

  /** Nothing in the string means anything but itself. */
  predicate Inert(s: Blob) {
    forall i :: 0 <= i < |s| ==> s[i] != PLUS && !EscapeAt(s, i)
  }

  /** Decoding leaves a string alone exactly when it holds no `+` and no well-formed escape. */
  lemma {:induction false} UnescapeFixedExactly(s: Blob)
    ensures Unescape(s) == s <==> Inert(s)
  {
    if s == [] {
    } else {
      UnescapeFixedExactly(s[1..]);
      assert forall i :: 0 <= i < |s[1..]| ==> (EscapeAt(s[1..], i) <==> EscapeAt(s, i + 1));
      assert Inert(s) <==> s[0] != PLUS && !EscapeAt(s, 0) && Inert(s[1..]) by {
        assert forall i :: 0 < i < |s| ==> s[i] == s[1..][i - 1] && (EscapeAt(s[1..], i - 1) <==> EscapeAt(s, i));
      }
      if s[0] != PLUS && !EscapeAt(s, 0) {
        assert s == [s[0]] + s[1..];
        assert Unescape(s)[1..] == Unescape(s[1..]);
      }
    }
  }
}
