/** Bytes and the machine's 32-bit words in memory, least significant byte first. */
module Words {
  newtype byte = x: int | 0 <= x < 256

  const ULONG_RANGE := 0x1_0000_0000
  const INT_MAX := 0x7fff_ffff

  type ulong = x: nat | x < ULONG_RANGE

  // The four bytes of an unsigned long, least significant first.
  function LongBytes(v: ulong): (s: seq<byte>)
    ensures |s| == 4
  {
    [(v % 256) as byte, (v / 256 % 256) as byte, (v / 65536 % 256) as byte, (v / 16777216) as byte]
  }

  function LongValue(s: seq<byte>): (v: ulong)
    requires |s| == 4
  {
    s[0] as nat + 256 * s[1] as nat + 65536 * s[2] as nat + 16777216 * s[3] as nat
  }

  // Byte i of a long counts 256^i.
  lemma LongByte(v: ulong)
    ensures LongBytes(v)[0] as int == v % 256 && LongBytes(v)[1] as int == v / 256 % 256
    ensures LongBytes(v)[2] as int == v / 65536 % 256 && LongBytes(v)[3] as int == v / 16777216 % 256
  {
  }

  lemma LongRoundTrip(v: ulong)
    ensures LongValue(LongBytes(v)) == v
  {
    var a := v / 256;
    var b := a / 256;
    assert b == v / 65536 && b / 256 == v / 16777216;
    assert v == v % 256 + 256 * a && a == a % 256 + 256 * b && b == b % 256 + 256 * (b / 256);
  }

  // A signed long in two's complement.
  type long = x: int | -0x8000_0000 <= x < 0x8000_0000

  function ToWord(x: long): (r: ulong) {
    if x < 0 then x + ULONG_RANGE else x
  }

  // A word is the long itself, but for a multiple of 2^32, and gives it back.
  lemma WordIs(x: long)
    ensures FromWord(ToWord(x)) == x && (ToWord(x) - x) % ULONG_RANGE == 0
  {
    assert ToWord(x) - x == if x < 0 then ULONG_RANGE else 0;
  }

  function FromWord(v: ulong): (r: long) {
    if v >= 0x8000_0000 then v - ULONG_RANGE else v
  }
}
