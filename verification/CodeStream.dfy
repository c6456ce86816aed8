/** What the adaptive coder means (src/libc/pio.c): the bits it produces for a message,
  the message it reads from bits, and that the second undoes the first.

  The coder keeps 64 trees and the number of the current one.  A symbol's bits are its
  leaf's code in the current tree; that tree is then splayed at the leaf, and the symbol
  chooses the next tree. */
module CodeStream {
  import opened PowersOfTwo
  import opened Options
  import opened SplayTree
  import opened BitPacking
  import opened PioBuffer
  import opened Words

  const CHAR_RANGE := 255
  const EOF_CODE := CHAR_RANGE + 1
  const MAXCHAR := EOF_CODE + 1
  const SUCCMAX := MAXCHAR + 1
  const TWICEMAX := 2 * MAXCHAR + 1
  const MAXSTATE := 64
  const BIT_LIMIT := 16

  type Symbol = s: int | 0 <= s <= TWICEMAX - SUCCMAX

  datatype Coder = Coder(trees: seq<Links>, state: nat)

  ghost predicate ValidCoder(m: Coder) {
    && |m.trees| == MAXSTATE && m.state < MAXSTATE
    && forall k | 0 <= k < MAXSTATE :: Valid(m.trees[k]) && N(m.trees[k]) == MAXCHAR
  }

  ghost function Current(m: Coder): (t: Links)
    requires ValidCoder(m)
    ensures Valid(t) && N(t) == MAXCHAR
  {
    m.trees[m.state]
  }

  ghost function SymbolCode(m: Coder, s: Symbol): (w: Bits)
    requires ValidCoder(m)
  {
    Code(Current(m), s + SUCCMAX)
  }

  ghost function Next(m: Coder, s: Symbol): (m': Coder)
    requires ValidCoder(m)
    ensures ValidCoder(m')
  {
    Coder(m.trees[m.state := Splay(Current(m), s + SUCCMAX)], s % MAXSTATE)
  }

  ghost function Initial(): (m: Coder)
    ensures ValidCoder(m)
  {
    HeapValid(MAXCHAR);
    Coder(seq(MAXSTATE, _ => Heap(MAXCHAR)), 0)
  }

  // The coder after a run of symbols.
  ghost function After(m: Coder, msg: seq<byte>): (m': Coder)
    requires ValidCoder(m)
    ensures ValidCoder(m')
    decreases |msg|
  {
    if msg == [] then m else After(Next(m, msg[0] as int), msg[1..])
  }

  // The bits for a run of characters, without the end mark.
  ghost function EncodeChars(m: Coder, msg: seq<byte>): (r: Bits)
    requires ValidCoder(m)
    decreases |msg|
  {
    if msg == [] then []
    else SymbolCode(m, msg[0] as int) + EncodeChars(Next(m, msg[0] as int), msg[1..])
  }

  // The bits for a whole message: its characters, then the end mark.
  ghost function Encode(m: Coder, msg: seq<byte>): (r: Bits)
    requires ValidCoder(m)
  {
    EncodeChars(m, msg) + SymbolCode(After(m, msg), EOF_CODE)
  }

  // ---- How the coder adapts ----

  // Symbol r's code in tree k.
  ghost function CodeIn(m: Coder, k: nat, r: Symbol): (w: Bits)
    requires ValidCoder(m) && k < MAXSTATE
  {
    Code(m.trees[k], r + SUCCMAX)
  }

  // After symbol s, its code in the tree it was coded in is every second turn of what it was, so of
  // half the length, and every other code there is at most one turn longer; the codes in the other
  // trees are what they were, and the tree used next depends on s alone.
  lemma CoderAdapts(m: Coder, s: Symbol)
    requires ValidCoder(m)
    ensures CodeIn(Next(m, s), m.state, s) == Halved(SymbolCode(m, s))
    ensures forall r: Symbol :: CodeIn(Next(m, s), m.state, r) == SplayedCode(SymbolCode(m, r), SymbolCode(m, s))
    ensures forall r: Symbol :: |CodeIn(Next(m, s), m.state, r)| <= |SymbolCode(m, r)| + 1
    ensures forall k: nat, r: Symbol | k < MAXSTATE && k != m.state :: CodeIn(Next(m, s), k, r) == CodeIn(m, k, r)
    ensures forall r: Symbol :: SymbolCode(Next(m, s), r) == CodeIn(Next(m, s), s % MAXSTATE, r)
  {
    forall r: Symbol
      ensures CodeIn(Next(m, s), m.state, r) == SplayedCode(SymbolCode(m, r), SymbolCode(m, s))
      ensures |CodeIn(Next(m, s), m.state, r)| <= |SymbolCode(m, r)| + 1
    {
      SplayCodes(Current(m), s + SUCCMAX, r + SUCCMAX);
      SplayLengths(Current(m), s + SUCCMAX, r + SUCCMAX);
    }
    SplayedBelow(SymbolCode(m, s), []);
    assert SymbolCode(m, s) + [] == SymbolCode(m, s) && Halved(SymbolCode(m, s)) + [] == Halved(SymbolCode(m, s));
  }

  // At first every tree gives symbol s the binary digits of s + 258 after the first one: eight of them,
  // or nine for the last symbols.
  lemma FirstCodes(k: nat, s: Symbol)
    requires k < MAXSTATE
    ensures Initial().state == 0
    ensures |CodeIn(Initial(), k, s)| == if s < 254 then 8 else 9
    ensures var w := CodeIn(Initial(), k, s);
            forall i | 0 <= i < |w| :: w[i] == (Digit(s + 258, |w| - 1 - i) == 1)
  {
    var n := if s < 254 then 8 else 9;
    HeapValid(MAXCHAR);
    assert Pow2(8) == 256 && Pow2(9) == 512;
    HeapCodeDigits(s + SUCCMAX, n);
  }

  lemma {:induction false} HeapCodeDigits(x: nat, k: nat)
    requires Pow2(k) <= x < 2 * Pow2(k)
    ensures |HeapCode(x)| == k && forall i | 0 <= i < k :: HeapCode(x)[i] == (Digit(x, k - 1 - i) == 1)
    decreases k
  {
    if k > 0 {
      HeapCodeDigits(x / 2, k - 1);
    }
  }

  // n times the same character
  function Same(c: byte, n: nat): (msg: seq<byte>)
    ensures |msg| == n
  {
    if n == 0 then [] else [c] + Same(c, n - 1)
  }

  // A run of one character costs one bit each, and at most twice its first code's length more.
  lemma {:induction false} RunInPlace(m: Coder, c: byte, n: nat)
    requires ValidCoder(m) && m.state == c as nat % MAXSTATE && n > 0
    ensures |EncodeChars(m, Same(c, n))| <= n + 2 * (|SymbolCode(m, c as int)| - 1)
    decreases n
  {
    var s, m' := c as int, Next(m, c as int);
    CoderAdapts(m, s);
    assert Same(c, n)[0] == c && Same(c, n)[1..] == Same(c, n - 1);
    if n > 1 {
      RunInPlace(m', c, n - 1);
    } else {
      assert EncodeChars(m', []) == [];
    }
  }

  lemma SecondCode(c: byte)
    ensures |SymbolCode(Initial(), c as int)| <= 9
    ensures |SymbolCode(Next(Initial(), c as int), c as int)| <= 9
  {
    var s: Symbol := c as int;
    FirstCodes(0, s);
    FirstCodes(s % MAXSTATE, s);
    CoderAdapts(Initial(), s);
    assert SymbolCode(Initial(), s) == CodeIn(Initial(), 0, s);
  }

  // From the start, n equal characters take at most n + 24 bits.
  lemma RunFromStart(c: byte, n: nat)
    requires n > 0
    ensures |EncodeChars(Initial(), Same(c, n))| <= n + 24
  {
    var m' := Next(Initial(), c as int);
    SecondCode(c);
    assert Same(c, n)[0] == c && Same(c, n)[1..] == Same(c, n - 1);
    if n > 1 {
      RunInPlace(m', c, n - 1);
    } else {
      assert EncodeChars(m', []) == [];
    }
  }

  // One symbol off the front of a stream, and the rest of it.
  ghost function DecodeSymbol(m: Coder, bits: Bits): (r: Option<(Symbol, Bits)>)
    requires ValidCoder(m)
    ensures r.Some? ==> |r.value.1| < |bits|
  {
    match Descend(Current(m), ROOT, bits)
    case None => None
    case Some((leaf, rest)) => Some((LeafSymbol(Current(m), leaf, bits, rest), rest))
  }

  ghost function LeafSymbol(t: Links, leaf: int, bits: Bits, rest: Bits): (r: Symbol)
    requires Valid(t) && N(t) == MAXCHAR && Descend(t, ROOT, bits) == Some((leaf, rest))
  {
    DescendReachesLeaf(t, ROOT, bits);
    leaf - SUCCMAX
  }

  // The message at the front of a stream, if its end mark is there, and what follows it.
  ghost function Decode(m: Coder, bits: Bits): (r: Option<(seq<byte>, Bits)>)
    requires ValidCoder(m)
    decreases |bits|
  {
    match DecodeSymbol(m, bits)
    case None => None
    case Some((s, rest)) =>
      if s == EOF_CODE then Some(([], rest))
      else match Decode(Next(m, s), rest)
        case None => None
        case Some((msg, tail)) => Some(([(s % 256) as byte] + msg, tail))
  }

  // A symbol is read off a stream exactly when the stream begins with its code.
  lemma DecodeSymbolExactly(m: Coder, s: Symbol, bits: Bits, rest: Bits)
    requires ValidCoder(m)
    ensures DecodeSymbol(m, bits) == Some((s, rest)) <==> bits == SymbolCode(m, s) + rest
  {
    if DecodeSymbol(m, bits) == Some((s, rest)) {
      DescendConsumesCode(Current(m), ROOT, bits);
      assert [] + bits == bits;
    }
    if bits == SymbolCode(m, s) + rest {
      DescendDecodes(Current(m), s + SUCCMAX, rest);
    }
  }

  // From any state of the coder, a message is read back from its own bits whatever
  // follows them, and the reader stops exactly after the end mark.
  lemma {:induction false} DecodeEncode(m: Coder, msg: seq<byte>, tail: Bits)
    requires ValidCoder(m)
    ensures Decode(m, Encode(m, msg) + tail) == Some((msg, tail))
    decreases |msg|
  {
    if msg == [] {
      DecodeLast(m, tail);
    } else {
      var s := msg[0] as int;
      EncodeFirst(m, msg, tail);
      DecodeEncode(Next(m, s), msg[1..], tail);
      DecodeFirst(m, Encode(m, msg) + tail, msg, Encode(Next(m, s), msg[1..]) + tail, tail);
    }
  }

  lemma DecodeLast(m: Coder, tail: Bits)
    requires ValidCoder(m)
    ensures Decode(m, Encode(m, []) + tail) == Some(([], tail))
  {
    assert Encode(m, []) == SymbolCode(m, EOF_CODE);
    DecodeSymbolExactly(m, EOF_CODE, Encode(m, []) + tail, tail);
  }

  lemma EncodeFirst(m: Coder, msg: seq<byte>, tail: Bits)
    requires ValidCoder(m) && msg != []
    ensures var s := msg[0] as int;
            Encode(m, msg) + tail == SymbolCode(m, s) + (Encode(Next(m, s), msg[1..]) + tail)
  {
    var s := msg[0] as int;
    var m' := Next(m, s);
    assert After(m, msg) == After(m', msg[1..]);
    assert EncodeChars(m, msg) == SymbolCode(m, s) + EncodeChars(m', msg[1..]);
  }

  lemma DecodeFirst(m: Coder, all: Bits, msg: seq<byte>, bits: Bits, tail: Bits)
    requires ValidCoder(m) && msg != [] && all == SymbolCode(m, msg[0] as int) + bits
    requires Decode(Next(m, msg[0] as int), bits) == Some((msg[1..], tail))
    ensures Decode(m, all) == Some((msg, tail))
  {
    DecodeSymbolExactly(m, msg[0] as int, all, bits);
    DecodeMore(m, all, msg[0], bits);
    assert [msg[0]] + msg[1..] == msg;
  }

  lemma DecodeMore(m: Coder, all: Bits, c: byte, bits: Bits)
    requires ValidCoder(m) && DecodeSymbol(m, all) == Some((c as int, bits))
    ensures Decode(m, all) == match Decode(Next(m, c as int), bits)
                              case None => None
                              case Some((msg, tail)) => Some(([c] + msg, tail))
  {
  }

  // The first symbol of a stream against the message it holds.
  lemma DecodeNext(m: Coder, bits: Bits, s: Symbol, rest: Bits, msg: seq<byte>, tail: Bits)
    requires ValidCoder(m) && Decode(m, bits) == Some((msg, tail)) && DecodeSymbol(m, bits) == Some((s, rest))
    ensures s == EOF_CODE <==> msg == []
    ensures s == EOF_CODE ==> rest == tail
    ensures s != EOF_CODE ==> msg[0] == (s % 256) as byte && Decode(Next(m, s), rest) == Some((msg[1..], tail))
  {
  }

  lemma {:induction false} EncodeCharsAppend(m: Coder, msg: seq<byte>, c: byte)
    requires ValidCoder(m)
    ensures After(m, msg + [c]) == Next(After(m, msg), c as int)
    ensures EncodeChars(m, msg + [c]) == EncodeChars(m, msg) + SymbolCode(After(m, msg), c as int)
    decreases |msg|
  {
    var u := msg + [c];
    if msg == [] {
      assert u[1..] == [] && u[0] == c;
      assert After(m, u) == After(Next(m, c as int), []);
      assert EncodeChars(m, u) == SymbolCode(m, c as int) + EncodeChars(Next(m, c as int), []);
    } else {
      assert u[0] == msg[0] && u[1..] == msg[1..] + [c];
      EncodeCharsAppend(Next(m, msg[0] as int), msg[1..], c);
    }
  }

  // ---- In bytes ----

  // What pio_compress_buffer appends for a message: packed bits and a zero byte.
  ghost function Compressed(msg: seq<byte>): (r: seq<byte>) {
    Pack(Encode(Initial(), msg)) + [0]
  }

  // Compressed bytes are the message's bits, filled up with zeros to the next byte, or with a byte of
  // them if they end with one, and a zero byte.
  lemma CompressedIs(msg: seq<byte>)
    ensures var bits := Encode(Initial(), msg);
            && |Compressed(msg)| == |bits| / 8 + 2 && Compressed(msg)[|bits| / 8 + 1] == 0
            && Unpack(Compressed(msg)) == bits + Zeros(8 - |bits| % 8) + Zeros(8)
  {
    var bits := Encode(Initial(), msg);
    UnpackPack(bits);
    UnpackAppend(Pack(bits), [0]);
    UnpackZero();
  }

  // What pio_decompress_buffer produces, when the stream holds an end mark.
  ghost function Decompressed(bytes: seq<byte>): (r: Option<seq<byte>>) {
    match Decode(Initial(), Unpack(bytes))
    case None => None
    case Some((msg, _)) => Some(msg)
  }

  // ---- Past the end of the input ----

  // The bits the reader sees when it makes up for n bytes beyond the input: what the bit buffer
  // holds, which is zero once a byte has been read.
  ghost function Padded(bytes: seq<byte>, residue: byte, n: nat): (w: Bits)
    ensures |w| == 8 * |bytes| + 8 * n
  {
    Unpack(bytes) + LowBits(if bytes == [] then residue as nat else 0, 8 * n)
  }

  // Sooner or later an end mark is read.
  ghost predicate Ends(bytes: seq<byte>, residue: byte) {
    exists n: nat {:trigger Padded(bytes, residue, n)} :: Decode(Initial(), Padded(bytes, residue, n)).Some?
  }

  ghost function Reach(bytes: seq<byte>, residue: byte): (n: nat)
    requires Ends(bytes, residue)
    ensures Decode(Initial(), Padded(bytes, residue, n)).Some?
  {
    var n: nat :| Decode(Initial(), Padded(bytes, residue, n)).Some?;
    n
  }

  // The message up to that end mark, and the number of bits read for it.
  ghost function Produced(bytes: seq<byte>, residue: byte): (msg: seq<byte>)
    requires Ends(bytes, residue)
  {
    Decode(Initial(), Padded(bytes, residue, Reach(bytes, residue))).value.0
  }

  ghost function Used(bytes: seq<byte>, residue: byte): (bits: int)
    requires Ends(bytes, residue)
  {
    var n := Reach(bytes, residue);
    8 * |bytes| + 8 * n - |Decode(Initial(), Padded(bytes, residue, n)).value.1|
  }

  // Bytes made up for so many bits, when `have` bytes were there.
  function MadeUp(have: nat, used: int): (n: nat)
    ensures 8 * (have + n) >= used && (n > 0 ==> 8 * (have + n - 1) < used)
  {
    if used <= 8 * have then 0 else (used - 8 * have + 7) / 8
  }

  // More bits at the end change nothing but what is left over.
  lemma {:induction false} DecodeExtends(m: Coder, bits: Bits, more: Bits)
    requires ValidCoder(m) && Decode(m, bits).Some?
    ensures Decode(m, bits + more) == Some((Decode(m, bits).value.0, Decode(m, bits).value.1 + more))
    decreases |bits|
  {
    var (s, rest) := DecodeSymbol(m, bits).value;
    SymbolExtends(m, s, bits, rest, more);
    if s != EOF_CODE {
      DecodeExtends(Next(m, s), rest, more);
    }
  }

  lemma SymbolExtends(m: Coder, s: Symbol, bits: Bits, rest: Bits, more: Bits)
    requires ValidCoder(m) && DecodeSymbol(m, bits) == Some((s, rest))
    ensures DecodeSymbol(m, bits + more) == Some((s, rest + more))
  {
    DecodeSymbolExactly(m, s, bits, rest);
    Reassociate(SymbolCode(m, s), rest, more);
    DecodeSymbolExactly(m, s, bits + more, rest + more);
  }

  lemma PaddedExtends(bytes: seq<byte>, residue: byte, n: nat, k: nat) returns (more: Bits)
    requires n <= k
    ensures Padded(bytes, residue, k) == Padded(bytes, residue, n) + more
  {
    var v := if bytes == [] then residue as nat else 0;
    if n == 0 {
      more := LowBits(v, 8 * k);
      assert LowBits(v, 8 * n) == [];
    } else {
      Pow2Monotone(8, 8 * n);
      assert Pow2(8) == 256;
      more := Zeros(8 * (k - n));
      LowBitsBeyond(v, 8 * n, 8 * (k - n));
    }
    Reassociate(Unpack(bytes), LowBits(v, 8 * n), more);
  }

  // How many bytes are made up does not matter once there are enough.
  lemma ProducedAnyway(bytes: seq<byte>, residue: byte, n: nat)
    requires Decode(Initial(), Padded(bytes, residue, n)).Some?
    ensures var (msg, tail) := Decode(Initial(), Padded(bytes, residue, n)).value;
            && Ends(bytes, residue) && Produced(bytes, residue) == msg
            && Used(bytes, residue) == 8 * |bytes| + 8 * n - |tail|
  {
    var k := Reach(bytes, residue);
    if n <= k {
      var more := PaddedExtends(bytes, residue, n, k);
      DecodeExtends(Initial(), Padded(bytes, residue, n), more);
    } else {
      var more := PaddedExtends(bytes, residue, k, n);
      DecodeExtends(Initial(), Padded(bytes, residue, k), more);
    }
  }

  // An input that holds an end mark is decompressed without making up a byte.
  lemma EndsWithin(bytes: seq<byte>, residue: byte)
    ensures Decompressed(bytes).Some? <==> Ends(bytes, residue) && Used(bytes, residue) <= 8 * |bytes|
    ensures Decompressed(bytes).Some? ==> Decompressed(bytes).value == Produced(bytes, residue)
  {
    assert Padded(bytes, residue, 0) == Unpack(bytes);
    if Decompressed(bytes).Some? {
      ProducedAnyway(bytes, residue, 0);
    }
    if Ends(bytes, residue) && Used(bytes, residue) <= 8 * |bytes| {
      var n := Reach(bytes, residue);
      var more := PaddedExtends(bytes, residue, 0, n);
      Shortened(Initial(), Unpack(bytes), more);
    }
  }

  // If what is left over includes the last bits, those were not needed.
  lemma {:induction false} Shortened(m: Coder, bits: Bits, more: Bits)
    requires ValidCoder(m) && Decode(m, bits + more).Some? && |Decode(m, bits + more).value.1| >= |more|
    ensures Decode(m, bits).Some?
    decreases |bits|
  {
    var (s, rest) := DecodeSymbol(m, bits + more).value;
    DecodeLeavesLess(m, bits + more);
    DecodeSymbolExactly(m, s, bits + more, rest);
    var k := |SymbolCode(m, s)|;
    assert |rest| >= |more|;
    var rest' := bits[k..];
    assert rest == rest' + more by {
      assert (bits + more)[k..] == rest;
    }
    assert bits == SymbolCode(m, s) + rest' by {
      assert (bits + more)[..k] == SymbolCode(m, s);
    }
    DecodeSymbolExactly(m, s, bits, rest');
    if s != EOF_CODE {
      Shortened(Next(m, s), rest', more);
    }
  }

  lemma {:induction false} DecodeLeavesLess(m: Coder, bits: Bits)
    requires ValidCoder(m) && Decode(m, bits).Some?
    ensures |Decode(m, bits).value.1| <= |DecodeSymbol(m, bits).value.1|
    decreases |bits|
  {
    var (s, rest) := DecodeSymbol(m, bits).value;
    if s != EOF_CODE {
      DecodeLeavesLess(Next(m, s), rest);
    }
  }

  // Every message survives compression, even when other bytes follow it.
  lemma DecompressCompress(msg: seq<byte>, more: seq<byte>)
    ensures Decompressed(Compressed(msg) + more) == Some(msg)
  {
    var bits := Encode(Initial(), msg);
    var tail := Zeros(8 - |bits| % 8) + Unpack([0] + more);
    UnpackPadded(bits, more);
    DecodeEncode(Initial(), msg, tail);
  }

  lemma UnpackPadded(bits: Bits, more: seq<byte>)
    ensures Unpack(Pack(bits) + [0] + more) == bits + (Zeros(8 - |bits| % 8) + Unpack([0] + more))
  {
    UnpackStream(bits, [0] + more);
    assert Pack(bits) + [0] + more == Pack(bits) + ([0] + more);
  }

  lemma UnpackStream(bits: Bits, more: seq<byte>)
    ensures Unpack(Pack(bits) + more) == bits + (Zeros(8 - |bits| % 8) + Unpack(more))
  {
    UnpackPack(bits);
    UnpackAppend(Pack(bits), more);
    Reassociate(bits, Zeros(8 - |bits| % 8), Unpack(more));
  }

  lemma Reassociate(a: Bits, b: Bits, c: Bits)
    ensures a + b + c == a + (b + c)
  {
  }

  // Different messages have different compressed forms, and neither is a prefix of the other.
  lemma CompressedPrefixFree(a: seq<byte>, b: seq<byte>)
    ensures Compressed(a) <= Compressed(b) <==> a == b
  {
    if Compressed(a) <= Compressed(b) {
      var more := Compressed(b)[|Compressed(a)|..];
      assert Compressed(b) == Compressed(a) + more;
      DecompressCompress(a, more);
      DecompressCompress(b, []);
      assert Compressed(b) + [] == Compressed(b);
    }
  }

  // ---- In files ----

  const MAGIC: seq<byte> := ['P' as byte, 'Z' as byte, '0' as byte, '1' as byte]

  // The file for a message: magic number, index of the last byte, compressed bytes
  // without the final zero.
  ghost function FileOf(msg: seq<byte>): (r: seq<byte>)
    requires 1 <= |msg| <= ULONG_RANGE
  {
    MAGIC + LongBytes(|msg| - 1) + Pack(Encode(Initial(), msg))
  }

  // A file is "PZ01", the index of the message's last byte, the least significant byte first, and the
  // compressed bytes but the last.
  lemma FileLayout(msg: seq<byte>)
    requires 1 <= |msg| <= ULONG_RANGE
    ensures var file, last := FileOf(msg), |msg| - 1;
            && |file| >= 8 && file[0] == 80 && file[1] == 90 && file[2] == 48 && file[3] == 49
            && file[4] as int == last % 256 && file[5] as int == last / 256 % 256
            && file[6] as int == last / 65536 % 256 && file[7] as int == last / 16777216
            && file[8..] + [0] == Compressed(msg)
  {
    LongByte(|msg| - 1);
  }

  // The message in a file whose body holds an end mark.
  ghost function FileMessage(file: seq<byte>): (r: Option<seq<byte>>) {
    var bytes := file + [0];
    if |bytes| < 8 || bytes[..4] != MAGIC || LongValue(bytes[4..8]) == 0 then None
    else Decompressed(bytes[8..])
  }

  // A message of one byte is rejected when its file is read, because its recorded size
  // is 0; every longer one is read back exactly.
  lemma FileRoundTrip(msg: seq<byte>)
    requires 1 <= |msg| <= ULONG_RANGE
    ensures FileMessage(FileOf(msg)) == if |msg| == 1 then None else Some(msg)
  {
    FileParts(msg);
    LongRoundTrip(|msg| - 1);
    DecompressCompress(msg, []);
  }

  lemma FileParts(msg: seq<byte>)
    requires 1 <= |msg| <= ULONG_RANGE
    ensures var bytes := FileOf(msg) + [0];
            && |bytes| >= 8 && bytes[..4] == MAGIC && bytes[4..8] == LongBytes(|msg| - 1)
            && bytes[8..] == Compressed(msg) + []
  {
    var head, body := MAGIC + LongBytes(|msg| - 1), Pack(Encode(Initial(), msg));
    assert FileOf(msg) + [0] == head + (body + [0]);
    assert (head + (body + [0]))[8..] == body + [0];
  }
}
