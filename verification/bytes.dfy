/** Bytes and the little-endian 32-bit integers of the chunked file format.
    The original readers use the machine's native order; the model fixes it
    to little-endian, the order of the platforms the game data comes from. */
module Bytes {

  newtype byte = b: int | 0 <= b < 256

  const TWO_32: nat := 0x1_0000_0000
  const TWO_31: nat := 0x8000_0000

  /** The unsigned 32-bit value stored at `at`. */
  function U32At(s: seq<byte>, at: nat): (v: nat)
    requires at + 4 <= |s|
    ensures v < TWO_32
  {
    (s[at] as int) + 0x100 * (s[at + 1] as int) + 0x1_0000 * (s[at + 2] as int) + 0x100_0000 * (s[at + 3] as int)
  }

  /** The same four bytes read as a two's-complement signed integer, as
      `ByteBuffer.getInt` does. */
  function I32At(s: seq<byte>, at: nat): (v: int)
    requires at + 4 <= |s|
    ensures -(TWO_31 as int) <= v < TWO_31
    ensures v >= 0 <==> U32At(s, at) < TWO_31
  {
    var u := U32At(s, at);
    if u < TWO_31 then u else u - TWO_32
  }

  /** Little-endian encoding of an unsigned 32-bit value. */
  function EncodeU32(v: nat): (s: seq<byte>)
    requires v < TWO_32
    ensures |s| == 4
  {
    [(v % 0x100) as byte, ((v / 0x100) % 0x100) as byte, ((v / 0x1_0000) % 0x100) as byte, (v / 0x100_0000) as byte]
  }

  lemma U32RoundTrip(v: nat, rest: seq<byte>)
    requires v < TWO_32
    ensures U32At(EncodeU32(v) + rest, 0) == v
  {
    var s := EncodeU32(v) + rest;
    assert s[0] as int == v % 0x100 && s[1] as int == (v / 0x100) % 0x100;
    assert s[2] as int == (v / 0x1_0000) % 0x100 && s[3] as int == v / 0x100_0000;
    Digits(v);
  }

  /** The base-256 digits of a 32-bit value. */
  lemma Digits(v: nat)
    requires v < TWO_32
    ensures v == v % 0x100 + 0x100 * ((v / 0x100) % 0x100) + 0x1_0000 * ((v / 0x1_0000) % 0x100) + 0x100_0000 * (v / 0x100_0000)
  {
    var q1 := v / 0x100;
    var q2 := q1 / 0x100;
    var q3 := q2 / 0x100;
    assert v == v % 0x100 + 0x100 * q1;
    assert q1 == q1 % 0x100 + 0x100 * q2;
    assert q2 == q2 % 0x100 + 0x100 * q3;
    assert q2 == v / 0x1_0000;
    assert q3 == v / 0x100_0000;
  }

  /** The 32-bit value of four bytes placed anywhere in a sequence. */
  lemma U32AtShift(prefix: seq<byte>, mid: seq<byte>, rest: seq<byte>)
    requires |mid| == 4
    ensures U32At(prefix + mid + rest, |prefix|) == U32At(mid, 0)
  {
    var s := prefix + mid + rest;
    assert s[|prefix|..|prefix| + 4] == mid;
  }

  /** A sequence of `n` zero bytes. */
  function Zeros(n: nat): (s: seq<byte>)
    ensures |s| == n && forall i :: 0 <= i < n ==> s[i] == 0
  {
    seq(n, _ => 0)
  }
}
