/** Java's fixed-width integers, the big-endian int layout of java.nio.ByteBuffer,
    and the byte/char conversion of ASCII text. */
module Bytes {

  newtype byte = x: int | 0 <= x < 0x100
  newtype int32 = x: int | -0x8000_0000 <= x < 0x8000_0000
  newtype int64 = x: int | -0x8000_0000_0000_0000 <= x < 0x8000_0000_0000_0000

  const TwoTo32: int := 0x1_0000_0000
  const TwoTo64: int := 0x1_0000_0000_0000_0000

  /** Java `long` arithmetic: the 64-bit two's-complement value congruent to `x`. */
  function WrapLong(x: int): (r: int64)
    ensures (r as int - x) % TwoTo64 == 0
    ensures -0x8000_0000_0000_0000 <= x < 0x8000_0000_0000_0000 ==> r as int == x
  {
    var m := x % TwoTo64;
    if m < 0x8000_0000_0000_0000 then m as int64 else (m - TwoTo64) as int64
  }

  /** The four bytes, most significant first, of an unsigned 32-bit value. */
  function BigEndian32(n: nat): (b: seq<byte>)
    requires n < TwoTo32
    ensures |b| == 4
  {
    [(n / 0x100_0000) as byte, (n / 0x1_0000 % 0x100) as byte,
     (n / 0x100 % 0x100) as byte, (n % 0x100) as byte]
  }

  /** The unsigned value of four big-endian bytes (how the daemon reads a chunk length). */
  function FromBigEndian32(b: seq<byte>): (n: nat)
    requires |b| == 4
    ensures n < TwoTo32
  {
    b[0] as int * 0x100_0000 + b[1] as int * 0x1_0000 + b[2] as int * 0x100 + b[3] as int
  }

  /** What ByteBuffer.putInt stores for a Java int: its two's-complement bits, big-endian. */
  function IntBytes(v: int32): (b: seq<byte>)
    ensures |b| == 4
    ensures FromBigEndian32(b) == (if v < 0 then v as int + TwoTo32 else v as int)
  {
    var u := if v < 0 then v as int + TwoTo32 else v as int;
    DecodeEncode32(u);
    BigEndian32(u)
  }

  lemma DecodeEncode32(n: nat)
    requires n < TwoTo32
    ensures FromBigEndian32(BigEndian32(n)) == n
  {
    var b := BigEndian32(n);
    var q1, r1 := n / 0x100, n % 0x100;
    var q2, r2 := q1 / 0x100, q1 % 0x100;
    var q3, r3 := q2 / 0x100, q2 % 0x100;
    assert n == q1 * 0x100 + r1;
    assert q1 == q2 * 0x100 + r2;
    assert q2 == q3 * 0x100 + r3;
    assert n / 0x1_0000 == q2;
    assert n / 0x100_0000 == q3;
    assert b[0] as int == q3 && b[1] as int == r3 && b[2] as int == r2 && b[3] as int == r1;
  }

  lemma EncodeDecode32(b: seq<byte>)
    requires |b| == 4
    ensures BigEndian32(FromBigEndian32(b)) == b
  {
    var n := FromBigEndian32(b);
    var hi := b[0] as int * 0x100 + b[1] as int;
    var mid := hi * 0x100 + b[2] as int;
    assert n == mid * 0x100 + b[3] as int;
    assert n / 0x100 == mid && n % 0x100 == b[3] as int;
    assert mid / 0x100 == hi && mid % 0x100 == b[2] as int;
    assert hi / 0x100 == b[0] as int && hi % 0x100 == b[1] as int;
    assert n / 0x1_0000 == hi;
    assert n / 0x100_0000 == b[0] as int;
  }

  /** String.getBytes(UTF_8) on ASCII text: one byte per character, same code. */
  function Ascii(s: string): (b: seq<byte>)
    requires forall i :: 0 <= i < |s| ==> s[i] as int < 0x80
    ensures |b| == |s| && forall i :: 0 <= i < |s| ==> b[i] as int == s[i] as int
  {
    seq(|s|, i requires 0 <= i < |s| => s[i] as int as byte)
  }

  /** new String(bytes, UTF_8) on ASCII bytes: one character per byte, same code. */
  function AsString(b: seq<byte>): (s: string)
    ensures |s| == |b| && forall i :: 0 <= i < |b| ==> s[i] as int == b[i] as int
  {
    seq(|b|, i requires 0 <= i < |b| => b[i] as int as char)
  }

  /** Encoding ASCII text and decoding it again gives back the text. */
  lemma AsStringAscii(s: string)
    requires forall i :: 0 <= i < |s| ==> s[i] as int < 0x80
    ensures AsString(Ascii(s)) == s
  {
    var t := AsString(Ascii(s));
    assert forall i :: 0 <= i < |s| ==> t[i] == s[i];
  }

  /** Decoding ASCII bytes and encoding the text again gives back the bytes. */
  lemma AsciiAsString(b: seq<byte>)
    requires forall i :: 0 <= i < |b| ==> b[i] < 0x80
    ensures Ascii(AsString(b)) == b
  {
    var c := Ascii(AsString(b));
    assert forall i :: 0 <= i < |b| ==> c[i] == b[i];
  }
}
