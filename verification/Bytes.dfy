/** Octets, byte strings and the little-endian length fields of the wire format. */
module Bytes {
  type Byte = b: int | 0 <= b < 256
  type Blob = seq<Byte>

  datatype Option<+T> = None | Some(value: T)

  /** The two bytes `put_u16_le` appends for `n`, which the caller has already cut to 16 bits. */
  function Le16(n: nat): (s: Blob)
    requires n < 0x1_0000
    ensures |s| == 2
  {
    [n % 256, n / 256]
  }

  /** The four bytes `put_u32_le` appends for `n`, which the caller has already cut to 32 bits. */
  function Le32(n: nat): (s: Blob)
    requires n < 0x1_0000_0000
    ensures |s| == 4
  {
    [n % 256, n / 0x100 % 256, n / 0x1_0000 % 256, n / 0x100_0000]
  }

  /** `u16::from_le_bytes`. */
  function FromLe16(a: Byte, b: Byte): (n: nat)
    ensures n < 0x1_0000
  {
    a + 256 * b
  }

  /** `u32::from_le_bytes`. */
  function FromLe32(a: Byte, b: Byte, c: Byte, d: Byte): (n: nat)
    ensures n < 0x1_0000_0000
  {
    a + 0x100 * b + 0x1_0000 * c + 0x100_0000 * d
  }

  /** The low byte of a number and what is above it. */
  lemma LowByte(q: nat, r: Byte)
    ensures (r + 256 * q) % 256 == r && (r + 256 * q) / 256 == q
  {
  }

  lemma DivideTwice(n: nat)
    ensures n / 256 / 256 == n / 0x1_0000 && n / 0x1_0000 / 256 == n / 0x100_0000
  {
  }

  /** The bytes of a 16-bit field are those of the number they spell. */
  lemma Le16Exactly(a: Byte, b: Byte, n: nat)
    requires n < 0x1_0000
    ensures FromLe16(a, b) == n <==> Le16(n) == [a, b]
  {
    LowByte(b, a);
    assert n == n % 256 + 256 * (n / 256);
  }

  /** The bytes of a 32-bit field are those of the number they spell. */
  lemma Le32Exactly(a: Byte, b: Byte, c: Byte, d: Byte, n: nat)
    requires n < 0x1_0000_0000
    ensures FromLe32(a, b, c, d) == n <==> Le32(n) == [a, b, c, d]
  {
    DivideTwice(n);
    hide Le32;
    var x := n / 256;
    var y := x / 256;
    var z := y / 256;
    assert Le32(n) == [n % 256, x % 256, y % 256, z] by { Le32Bytes(n); }
    assert FromLe32(n % 256, x % 256, y % 256, z) == n;
    if FromLe32(a, b, c, d) == n {
      LowByte(b + 256 * (c + 256 * d), a);
      LowByte(c + 256 * d, b);
      LowByte(d, c);
    }
  }

  lemma Le32Bytes(n: nat)
    requires n < 0x1_0000_0000
    ensures Le32(n) == [n % 256, n / 256 % 256, n / 256 / 256 % 256, n / 256 / 256 / 256]
  {
    DivideTwice(n);
  }

  /** The 16-bit length field at position `at`. */
  function Le16At(b: Blob, at: nat): (n: nat)
    requires at + 2 <= |b|
    ensures n < 0x1_0000
  {
    FromLe16(b[at], b[at + 1])
  }

  /** The 32-bit length field at position `at`. */
  function Le32At(b: Blob, at: nat): (n: nat)
    requires at + 4 <= |b|
    ensures n < 0x1_0000_0000
  {
    FromLe32(b[at], b[at + 1], b[at + 2], b[at + 3])
  }

  lemma Le16Read(b: Blob, at: nat, n: nat)
    requires at + 2 <= |b|
    requires n < 0x1_0000
    ensures b[at..at + 2] == Le16(n) <==> Le16At(b, at) == n
  {
    var s := b[at..at + 2];
    assert s == [b[at], b[at + 1]];
    Le16Exactly(b[at], b[at + 1], n);
  }

  lemma Le32Read(b: Blob, at: nat, n: nat)
    requires at + 4 <= |b|
    requires n < 0x1_0000_0000
    ensures b[at..at + 4] == Le32(n) <==> Le32At(b, at) == n
  {
    var s := b[at..at + 4];
    assert s == [b[at], b[at + 1], b[at + 2], b[at + 3]];
    Le32Exactly(b[at], b[at + 1], b[at + 2], b[at + 3], n);
  }

  /** All pieces of a list of byte strings, end to end. */
  function Concat(pieces: seq<Blob>): Blob {
    if pieces == [] then [] else pieces[0] + Concat(pieces[1..])
  }
}
