/** How the compressor packs bits into bytes, least significant bit first
  (src/libc/pio.c, pio_compress_get_bit and pio_compress_put_bit). */
module BitPacking {
  import opened PowersOfTwo
  import opened SplayTree
  import opened Words

  function BitValue(b: bool): (r: nat) {
    if b then 1 else 0
  }

  // The number whose binary digits are w, least significant first.
  function Value(w: Bits): (v: nat)
    ensures v < Pow2(|w|)
  {
    if w == [] then 0 else BitValue(w[0]) + 2 * Value(w[1..])
  }

  // The low k binary digits of v.
  function LowBits(v: nat, k: nat): (w: Bits)
    ensures |w| == k
    decreases k
  {
    if k == 0 then [] else [v % 2 == 1] + LowBits(v / 2, k - 1)
  }

  function Zeros(k: nat): (w: Bits)
    ensures |w| == k
  {
    seq(k, _ => false)
  }

  function ByteOf(w: Bits): (r: byte)
    requires |w| <= 8
  {
    ValueFitsByte(w);
    Value(w) as byte
  }

  lemma ValueFitsByte(w: Bits)
    requires |w| <= 8
    ensures Value(w) < 256
  {
    Pow2Monotone(|w|, 8);
    assert Pow2(8) == 256;
  }

  lemma ValueHalves(w: Bits)
    requires w != []
    ensures (Value(w) % 2 == 1) == w[0] && Value(w) / 2 == Value(w[1..])
  {
    assert Value(w) == BitValue(w[0]) + 2 * Value(w[1..]);
  }

  lemma FirstBack(w: Bits, z: Bits)
    requires w != []
    ensures [w[0]] + (w[1..] + z) == w + z
  {
  }

  // Digits read back from a value, padded with zeros to any larger width.
  lemma {:induction false} LowBitsOfValue(w: Bits, k: nat)
    requires |w| <= k
    ensures LowBits(Value(w), k) == w + Zeros(k - |w|)
    decreases k
  {
    if w == [] {
      if k > 0 { LowBitsOfValue(w, k - 1); }
      assert k > 0 ==> [false] + Zeros(k - 1) == Zeros(k);
    } else {
      ValueHalves(w);
      LowBitsOfValue(w[1..], k - 1);
      assert LowBits(Value(w), k) == [w[0]] + LowBits(Value(w[1..]), k - 1);
      FirstBack(w, Zeros(k - |w|));
    }
  }

  // What a digit is worth at place k.
  function Weight(b: bool, k: nat): (n: nat) {
    if b then Pow2(k) else 0
  }

  // A new most significant digit adds its weight.
  lemma {:induction false} ValueAppend(w: Bits, b: bool)
    ensures Value(w + [b]) == Value(w) + Weight(b, |w|)
  {
    if w == [] {
      assert [b][1..] == [];
      assert Value([b]) == BitValue(b);
      assert w + [b] == [b];
    } else {
      assert (w + [b])[1..] == w[1..] + [b];
      ValueAppend(w[1..], b);
    }
  }

  // ---- Streams ----

  // The stream of bits held in a stream of bytes.
  function Unpack(bytes: seq<byte>): (w: Bits)
    ensures |w| == 8 * |bytes|
  {
    if bytes == [] then [] else LowBits(bytes[0] as nat, 8) + Unpack(bytes[1..])
  }

  lemma {:induction false} LowBitIs(v: nat, k: nat, j: nat)
    requires j < k
    ensures LowBits(v, k)[j] == (Digit(v, j) == 1)
    decreases k
  {
    if j > 0 {
      LowBitIs(v / 2, k - 1, j - 1);
    }
  }

  lemma UnpackAt(bytes: seq<byte>, k: nat)
    requires k < 8 * |bytes|
    ensures Unpack(bytes)[k] == if k < 8 then LowBits(bytes[0] as nat, 8)[k] else Unpack(bytes[1..])[k - 8]
  {
  }

  lemma {:induction false} UnpackedFrom(bytes: seq<byte>, i: nat, j: nat)
    requires i < |bytes| && j < 8
    ensures Unpack(bytes)[8 * i + j] == LowBits(bytes[i] as nat, 8)[j]
    decreases i
  {
    UnpackAt(bytes, 8 * i + j);
    if i > 0 {
      UnpackedFrom(bytes[1..], i - 1, j);
    }
  }

  // Eight bits of a stream come from each byte, the least significant first.
  lemma UnpackedBit(bytes: seq<byte>, i: nat, j: nat)
    requires i < |bytes| && j < 8
    ensures Unpack(bytes)[8 * i + j] == (Digit(bytes[i] as nat, j) == 1)
  {
    UnpackedFrom(bytes, i, j);
    LowBitIs(bytes[i] as nat, 8, j);
  }

  lemma UnpackZero()
    ensures Unpack([0]) == Zeros(8)
  {
    LowBitsOfValue([], 8);
    assert [] + Zeros(8) == Zeros(8) && [0 as byte][1..] == [];
  }

  // The whole bytes of a stream of bits.
  function WholeBytes(w: Bits): (s: seq<byte>)
    ensures |s| == |w| / 8
  {
    if |w| < 8 then [] else [ByteOf(w[..8])] + WholeBytes(w[8..])
  }

  // The bits after the last whole byte.
  function Leftover(w: Bits): (r: Bits)
    ensures |r| == |w| % 8
  {
    if |w| < 8 then w else Leftover(w[8..])
  }

  // The whole bytes, then one byte for what is left over, even when that is nothing.
  function Pack(w: Bits): (r: seq<byte>) {
    WholeBytes(w) + [ByteOf(Leftover(w))]
  }

  lemma UnpackByte(w: Bits)
    requires |w| <= 8
    ensures Unpack([ByteOf(w)]) == w + Zeros(8 - |w|)
  {
    LowBitsOfValue(w, 8);
    assert Unpack([ByteOf(w)]) == LowBits(Value(w), 8) + Unpack([]);
  }

  // Unpacking undoes packing up to the zeros that fill the last byte.
  lemma {:induction false} UnpackPack(w: Bits)
    ensures Unpack(Pack(w)) == w + Zeros(8 - |w| % 8)
    decreases |w|
  {
    if |w| < 8 {
      UnpackByte(w);
    } else {
      var z := Zeros(8 - |w| % 8);
      var s := Pack(w[8..]);
      FirstPacked(w);
      UnpackAppend([ByteOf(w[..8])], s);
      UnpackByte(w[..8]);
      UnpackPack(w[8..]);
      assert Unpack([ByteOf(w[..8])]) == w[..8];
      FirstEight(w, z);
    }
  }

  lemma FirstPacked(w: Bits)
    requires |w| >= 8
    ensures Pack(w) == [ByteOf(w[..8])] + Pack(w[8..]) && |w[8..]| % 8 == |w| % 8
  {
  }

  lemma FirstEight(w: Bits, z: Bits)
    requires |w| >= 8
    ensures w[..8] + (w[8..] + z) == w + z
  {
  }

  lemma {:induction false} UnpackAppend(s: seq<byte>, r: seq<byte>)
    ensures Unpack(s + r) == Unpack(s) + Unpack(r)
  {
    if s == [] {
      assert s + r == r;
    } else {
      assert (s + r)[1..] == s[1..] + r;
      UnpackAppend(s[1..], r);
    }
  }

  // Appending one bit either fills a byte or lengthens the leftover.
  lemma {:induction false} AppendBit(w: Bits, b: bool)
    ensures |w| % 8 == 7 ==>
              WholeBytes(w + [b]) == WholeBytes(w) + [ByteOf(Leftover(w) + [b])] && Leftover(w + [b]) == []
    ensures |w| % 8 != 7 ==>
              WholeBytes(w + [b]) == WholeBytes(w) && Leftover(w + [b]) == Leftover(w) + [b]
    decreases |w|
  {
    var u := w + [b];
    if |w| == 7 {
      assert u[..8] == u && u[8..] == [];
    } else if |w| > 7 {
      assert u[..8] == w[..8] && u[8..] == w[8..] + [b];
      AppendBit(w[8..], b);
    }
  }

  // Digits beyond those a number has are zeros.
  lemma {:induction false} LowBitsBeyond(v: nat, k: nat, j: nat)
    requires v < Pow2(k)
    ensures LowBits(v, k + j) == LowBits(v, k) + Zeros(j)
    decreases k + j
  {
    if k > 0 {
      LowBitsBeyond(v / 2, k - 1, j);
      assert LowBits(v, k + j) == [v % 2 == 1] + LowBits(v / 2, k - 1 + j);
      assert [v % 2 == 1] + (LowBits(v / 2, k - 1) + Zeros(j)) == LowBits(v, k) + Zeros(j);
    } else if j > 0 {
      LowBitsBeyond(0, 0, j - 1);
      assert LowBits(0, j) == [false] + LowBits(0, j - 1);
    }
  }
}
