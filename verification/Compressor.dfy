/** The compressor as the library runs it (src/libc/pio.c): arrays rewired in place, bit
  buffers shifted one bit at a time, bytes moved through portable I/O buffers.  Every
  method is tied to the meaning given in CodeStream. */
module Compressor {
  import opened PowersOfTwo
  import opened Options
  import opened SplayTree
  import opened BitPacking
  import opened PioBuffer
  import opened CodeStream
  import opened Words

  // The turns on a stack, last pushed first.
  function Upward(stack: seq<int>): (r: Bits) {
    if stack == [] then [] else [stack[|stack| - 1] == 1] + Upward(stack[..|stack| - 1])
  }

  // On the way from a leaf to the root: the turns below node a are on the stack.
  ghost predicate Climbed(t: Links, leaf: int, a: int, stack: seq<int>, sp: nat) {
    && Valid(t) && N(t) == MAXCHAR && Leaf(t, leaf) && Node(t, a)
    && sp <= |stack| == MAXCHAR && (sp == 0 ==> a == leaf)
    && (forall k | 0 <= k < |stack| :: 0 <= stack[k] <= 1)
    && Code(t, leaf) == Code(t, a) + Upward(stack[..sp])
  }

  lemma ClimbStep(t: Links, leaf: int, a: int, stack: seq<int>, sp: nat)
    requires Climbed(t, leaf, a, stack, sp) && a != ROOT
    ensures sp < |stack| && HasParent(t, a) && |Code(t, Parent(t, a))| < |Code(t, a)|
    ensures Climbed(t, leaf, Parent(t, a), stack[sp := if Side(t, a) then 1 else 0], sp + 1)
  {
    PathFits(t, leaf);
    CodeFromParent(t, a);
    UpwardIs(stack, sp);
    var w, next := Upward(stack[..sp]), stack[sp := if Side(t, a) then 1 else 0];
    assert next[..sp + 1][..sp] == stack[..sp];
    assert Code(t, Parent(t, a)) + [Side(t, a)] + w == Code(t, Parent(t, a)) + ([Side(t, a)] + w);
  }

  lemma {:induction false} UpwardIs(stack: seq<int>, sp: nat)
    requires sp <= |stack|
    ensures |Upward(stack[..sp])| == sp
  {
    if sp > 0 {
      assert stack[..sp][..sp - 1] == stack[..sp - 1];
      UpwardIs(stack, sp - 1);
    }
  }

  // One pio_compress_tree.
  class CodeTree {
    const up: array<int>
    const left: array<int>
    const right: array<int>

    ghost function Arrays(): (r: set<array<int>>) {
      {up, left, right}
    }

    ghost function View(): (r: Links)
      reads up, left, right
    {
      Links(up[..], left[..], right[..])
    }

    ghost predicate Ok()
      reads up, left, right
    {
      && up != left && up != right && left != right
      && Valid(View()) && N(View()) == MAXCHAR
    }

    // The allocation and loops of pio_compress_initialise for one tree.
    constructor ()
      ensures Ok() && View() == Heap(MAXCHAR)
      ensures fresh(up) && fresh(left) && fresh(right)
    {
      up := new int[TWICEMAX + 1](_ => 0);
      left := new int[MAXCHAR + 1](_ => 0);
      right := new int[MAXCHAR + 1](_ => 0);
      new;
      for x := 2 to TWICEMAX + 1
        invariant up[0] == 0 && up[1] == 0 && left[0] == 0 && right[0] == 0
        invariant forall k | 2 <= k < x :: up[k] == k / 2
      {
        up[x] := x / 2;
      }
      for i := 1 to MAXCHAR + 1
        invariant forall k | 2 <= k <= TWICEMAX :: up[k] == k / 2
        invariant up[0] == 0 && up[1] == 0 && left[0] == 0 && right[0] == 0
        invariant forall k | 1 <= k < i :: left[k] == 2 * k && right[k] == 2 * k + 1
      {
        left[i] := 2 * i;
        right[i] := 2 * i + 1;
      }
      HeapValid(MAXCHAR);
      assert View() == Heap(MAXCHAR);
    }

    // One round of the splay loop: node a, not at or just below the root, changes
    // places with its uncle.
    method LiftNode(a: int) returns (d: int)
      requires Ok() && Deep(View(), a)
      modifies up, left, right
      ensures Ok() && View() == Lift(old(View()), a) && d == Grandparent(old(View()), a)
    {
      ghost var t := View();
      FamilyCodes(t, a);
      LiftExchanges(t, a);
      var c := up[a];
      d := up[c];
      var b := left[d];
      if c == b {
        b := right[d];
        right[d] := a;
      } else {
        left[d] := a;
      }
      if a == left[c] {
        left[c] := b;
      } else {
        right[c] := b;
      }
      up[a] := d;
      up[b] := c;
      assert View() == Lift(t, a);
    }

    // The loop of pio_compress_splay.
    method SemiSplay(leaf: int)
      requires Ok() && Leaf(View(), leaf)
      modifies up, left, right
      ensures Ok() && View() == Splay(old(View()), leaf)
    {
      var a := leaf;
      while a != ROOT
        invariant Ok() && Node(View(), a)
        invariant Splay(View(), a) == Splay(old(View()), leaf)
        decreases |Code(View(), a)|
      {
        ghost var t := View();
        CodeFromParent(t, a);
        var c := up[a];
        if c != ROOT {
          LiftExchanges(t, a);
          FamilyCodes(t, a);
          a := LiftNode(a);
        } else {
          a := c;
        }
      }
    }

    // The first loop of pio_compress_compress: the turns from a leaf up to the root.
    method PathTo(leaf: int) returns (stack: array<int>, sp: nat)
      requires Ok() && Leaf(View(), leaf)
      ensures fresh(stack) && 1 <= sp <= stack.Length == MAXCHAR
      ensures forall k | 0 <= k < stack.Length :: 0 <= stack[k] <= 1
      ensures Upward(stack[..sp]) == Code(View(), leaf)
    {
      ghost var t := View();
      var a := leaf;
      stack := new int[MAXCHAR](_ => 0);
      sp := 0;
      assert Code(t, a) + [] == Code(t, a);
      while a != ROOT
        invariant Climbed(t, leaf, a, stack[..], sp)
        decreases |Code(t, a)|
      {
        ClimbStep(t, leaf, a, stack[..], sp);
        stack[sp] := if right[up[a]] == a then 1 else 0;
        sp := sp + 1;
        a := up[a];
      }
      assert stack[..][..sp] == stack[..sp];
      assert forall k | 0 <= k < stack.Length :: stack[..][k] == stack[k];
    }

    // One turn of the walk in pio_compress_decompress.
    method Child(a: int, bit: nat, ghost bits: Bits) returns (next: int)
      requires Ok() && 1 <= a <= MAXCHAR
      requires bits != [] && bits[0] == (bit != 0)
      ensures 1 <= next <= TWICEMAX
      ensures Descend(View(), a, bits) ==
              if next > MAXCHAR then Some((next, bits[1..])) else Descend(View(), next, bits[1..])
    {
      assert HasChildren(View(), a);
      if bit == 0 {
        next := left[a];
      } else {
        next := right[a];
      }
    }
  }

  lemma MoveFirst<T>(a: seq<T>, b: seq<T>)
    ensures b != [] ==> a + b == a + [b[0]] + b[1..]
  {
  }

  // x >> k
  function ShiftRight(x: nat, k: nat): (y: nat)
    ensures y <= x
    decreases k
  {
    if k == 0 then x else ShiftRight(x / 2, k - 1)
  }

  // A digit moves to a lower place.
  lemma {:induction false} ShiftAdd(x: nat, b: bool, j: nat, k: nat)
    requires k <= j
    ensures ShiftRight(x + Weight(b, j), k) == ShiftRight(x, k) + Weight(b, j - k)
    decreases k
  {
    if k > 0 {
      assert Weight(b, j) == 2 * Weight(b, j - 1);
      assert (x + Weight(b, j)) / 2 == x / 2 + Weight(b, j - 1);
      ShiftAdd(x / 2, b, j - 1, k - 1);
    }
  }

  lemma {:induction false} ShiftedOut(x: nat, k: nat)
    requires x < Pow2(k)
    ensures ShiftRight(x, k) == 0
    decreases k
  {
    if k > 0 {
      ShiftedOut(x / 2, k - 1);
    }
  }

  // Shifting the bit buffer right and setting its top bit leaves the bits sent so far,
  // and the new one above them, at the top.
  lemma ShiftIn(x: nat, left: nat, b: bool, top: nat)
    requires 1 <= left <= top + 1
    ensures ShiftRight(x / 2 + Weight(b, top), left - 1) == ShiftRight(x, left) + Weight(b, top + 1 - left)
  {
    ShiftAdd(x / 2, b, top, left - 1);
  }

  lemma ByteRange()
    ensures Pow2(7) == 128 && Pow2(8) == 256
  {
  }

  // Taking the lowest bit of the bit buffer takes the first bit of the stream.
  lemma TakeBit(x: nat, left: nat, rest: Bits)
    requires left > 0
    ensures var bits := LowBits(x, left) + rest;
            bits[0] == (x % 2 == 1) && bits[1..] == LowBits(x / 2, left - 1) + rest
  {
  }

  // The bit buffer with `left` places free, perhaps none, against the bits sent and those of them
  // that have gone out as whole bytes.
  ghost predicate Shifted(x: nat, left: nat, whole: seq<byte>, sent: Bits) {
    && x < 256 && left <= 7
    && WholeBytes(sent) == whole + (if left == 0 then [x as byte] else [])
    && var left' := if left == 0 then 8 else left;
       left' == 8 - |sent| % 8 && ShiftRight(x, left') == Value(Leftover(sent))
  }

  // The bit buffer after one more bit, against the bits sent.
  lemma BufferAfterBit(x: nat, left: nat, sent: Bits, b: bool)
    requires x < 256 && left == 8 - |sent| % 8 && ShiftRight(x, left) == Value(Leftover(sent))
    ensures Shifted(x / 2 + Weight(b, 7), left - 1, WholeBytes(sent), sent + [b])
  {
    var x', rest := x / 2 + Weight(b, 7), Leftover(sent) + [b];
    AppendBit(sent, b);
    TopValue(x, left, Leftover(sent), b);
    if left == 1 {
      ByteDone(x', rest, sent + [b]);
    } else {
      assert WholeBytes(sent) + [] == WholeBytes(sent);
    }
  }

  lemma TopValue(x: nat, left: nat, w: Bits, b: bool)
    requires x < 256 && 1 <= left <= 8 && |w| == 8 - left && ShiftRight(x, left) == Value(w)
    ensures x / 2 + Weight(b, 7) < 256 && ShiftRight(x / 2 + Weight(b, 7), left - 1) == Value(w + [b])
  {
    ByteRange();
    ShiftIn(x, left, b, 7);
    ValueAppend(w, b);
  }

  // The eighth bit completes a byte.
  lemma ByteDone(x: nat, w: Bits, sent: Bits)
    requires x < 256 && |w| == 8 && ShiftRight(x, 0) == Value(w) && Leftover(sent) == []
    ensures ByteOf(w) == x as byte && ShiftRight(x, 8) == Value(Leftover(sent))
  {
    ByteRange();
    ShiftedOut(x, 8);
  }

  lemma DropFirst(a: Bits, b: Bits)
    ensures a != [] ==> (a + b)[0] == a[0] && (a + b)[1..] == a[1..] + b
    ensures a == [] ==> a + b == b
  {
  }

  lemma HalfBelow(x: nat, left: nat)
    ensures left > 0 && x < Pow2(left) ==> x / 2 < Pow2(left - 1)
    ensures x < 256 ==> x / 2 < Pow2(7)
  {
    ByteRange();
  }

  // One bit off a made-up byte: the others are left in the bit buffer, and zeros follow.
  lemma MadeUpBits(v: nat, n: nat)
    requires v < 256 && n >= 1
    ensures LowBits(v, 8 * n)[0] == (v % 2 == 1)
    ensures LowBits(v, 8 * n)[1..] == LowBits(v / 2, 7) + [] + LowBits(0, 8 * (n - 1))
  {
    assert Pow2(7) == 128 && Pow2(0) == 1;
    LowBitsBeyond(v / 2, 7, 8 * (n - 1));
    LowBitsBeyond(0, 0, 8 * (n - 1));
    assert LowBits(v, 8 * n) == [v % 2 == 1] + LowBits(v / 2, 7 + 8 * (n - 1));
  }

  class PioCompressor {
    const trees: seq<CodeTree>
    ghost const treeArrays: set<array<int>>
    ghost var coder: Coder   // the value of the trees and the state
    var state: nat
    var inputBuffer: nat
    var inputLeft: nat
    var inputGarbage: nat
    var outputBuffer: nat
    var outputLeft: nat
    var error: bool

    // The trees use different arrays.
    ghost predicate Separate() {
      && |trees| == MAXSTATE
      && (forall k | 0 <= k < MAXSTATE :: trees[k].Arrays() <= treeArrays)
      && (forall j, k | 0 <= j < k < MAXSTATE :: trees[j].Arrays() !! trees[k].Arrays())
    }

    ghost predicate Ok()
      reads this, treeArrays
    {
      && Separate()
      && ValidCoder(coder)
      && state == coder.state
      && forall k | 0 <= k < MAXSTATE :: trees[k].Ok() && trees[k].View() == coder.trees[k]
    }

    // pio_compress_initialise.  The input bit buffer is not cleared.
    constructor (residue: nat)
      ensures Ok() && coder == Initial()
      ensures fresh(treeArrays)
      ensures inputBuffer == residue && inputLeft == 0 && inputGarbage == 0
      ensures outputBuffer == 0 && outputLeft == 8 && !error
    {
      var table: seq<CodeTree> := [];
      ghost var arrays: set<array<int>> := {};
      for k := 0 to MAXSTATE
        invariant |table| == k && fresh(arrays)
        invariant forall j | 0 <= j < k ::
                    table[j].Arrays() <= arrays && table[j].Ok() && table[j].View() == Heap(MAXCHAR)
        invariant forall i, j | 0 <= i < j < k :: table[i].Arrays() !! table[j].Arrays()
      {
        var tree := new CodeTree();
        table := table + [tree];
        arrays := arrays + tree.Arrays();
      }
      trees := table;
      treeArrays := arrays;
      error := false;
      inputBuffer := residue;
      inputLeft := 0;
      inputGarbage := 0;
      outputBuffer := 0;
      outputLeft := 8;
      state := 0;
      coder := Initial();
    }

    // ---- Bits in ----

    // The bits still to come: those in the bit buffer, then those in the buffer's bytes.
    ghost function InputBits(inbuff: Buffer): (r: Bits)
      requires inbuff.Reading()
      reads this, inbuff
    {
      LowBits(inputBuffer, inputLeft) + Unpack(inbuff.Rest())
    }

    // pio_compress_get_bit
    method GetBit(inbuff: Buffer) returns (bit: nat)
      requires inbuff.Reading()
      modifies this`inputBuffer, this`inputLeft, this`inputGarbage, this`error, inbuff
      ensures inbuff.Reading()
      ensures bit <= 1
      ensures old(InputBits(inbuff)) != [] ==>
                && InputBits(inbuff) == old(InputBits(inbuff))[1..]
                && (bit == 1) == old(InputBits(inbuff))[0]
                && inputGarbage == old(inputGarbage) && error == old(error)
      ensures old(InputBits(inbuff)) == [] ==>
                && bit == old(inputBuffer) % 2 && inputBuffer == old(inputBuffer) / 2 && inputLeft == 7
                && inbuff.Rest() == []
                && inputGarbage == old(inputGarbage) + 1
                && error == (old(error) || inputGarbage > BIT_LIMIT)
      ensures old(inputLeft) > 0 ==> inputLeft == old(inputLeft) - 1 && inputBuffer == old(inputBuffer) / 2
      ensures old(inputLeft) == 0 && old(inbuff.Rest()) != [] ==> inputLeft == 7 && inputBuffer < 128
    {
      if inputLeft == 0 {
        Refill(inbuff);
      }
      bit := ShiftOut(inbuff);
    }

    // The last lines of pio_compress_get_bit.
    method ShiftOut(inbuff: Buffer) returns (bit: nat)
      requires inbuff.Reading() && inputLeft > 0
      modifies this`inputBuffer, this`inputLeft
      ensures inputLeft == old(inputLeft) - 1 && inputBuffer == old(inputBuffer) / 2 && bit == old(inputBuffer) % 2
      ensures old(InputBits(inbuff)) != [] && InputBits(inbuff) == old(InputBits(inbuff))[1..]
      ensures bit <= 1 && (bit == 1) == old(InputBits(inbuff))[0]
    {
      TakeBit(inputBuffer, inputLeft, Unpack(inbuff.Rest()));
      bit := inputBuffer % 2;
      inputBuffer := inputBuffer / 2;
      inputLeft := inputLeft - 1;
    }

    // What the bit buffer's next refill finds in it, when the input has ended.
    ghost function Past(inbuff: Buffer): (v: nat)
      requires inbuff.Reading()
      reads this, inbuff
    {
      if inputLeft == 0 && inbuff.Rest() == [] then inputBuffer else 0
    }

    // The bits still to come if bytes are made up until `limit` of them have been counted.
    ghost function Stream(inbuff: Buffer, limit: nat): (w: Bits)
      requires inbuff.Reading() && inputGarbage <= limit
      reads this, inbuff
    {
      InputBits(inbuff) + LowBits(Past(inbuff), 8 * (limit - inputGarbage))
    }

    // Between bits: the bit buffer holds no more than the bits left in it, or what an earlier run
    // left; bytes have only been made up at the end; the error says whether they were too many.
    ghost predicate Tidy(inbuff: Buffer)
      requires inbuff.Reading()
      reads this, inbuff
    {
      && inputLeft <= 7
      && inputBuffer < (if inputLeft == 0 then 256 else Pow2(inputLeft))
      && (inputGarbage > 0 ==> inbuff.Rest() == [])
      && (error <==> inputGarbage > BIT_LIMIT)
    }

    // pio_compress_get_bit against the whole stream, made-up bits and all
    method NextBit(inbuff: Buffer, ghost limit: nat) returns (bit: nat)
      requires inbuff.Reading() && Tidy(inbuff) && inputGarbage <= limit && Stream(inbuff, limit) != []
      modifies this`inputBuffer, this`inputLeft, this`inputGarbage, this`error, inbuff
      ensures inbuff.Reading() && Tidy(inbuff) && inputGarbage <= limit
      ensures bit <= 1 && (bit == 1) == old(Stream(inbuff, limit))[0]
      ensures Stream(inbuff, limit) == old(Stream(inbuff, limit))[1..]
    {
      ghost var bits, past, more := InputBits(inbuff), Past(inbuff), limit - inputGarbage;
      HalfBelow(inputBuffer, inputLeft);
      bit := GetBit(inbuff);
      StreamAfter(inbuff, limit, bits, past, more);
    }

    lemma StreamAfter(inbuff: Buffer, limit: nat, bits: Bits, past: nat, more: nat)
      requires inbuff.Reading() && inputGarbage <= limit
      requires bits != [] ==>
                 InputBits(inbuff) == bits[1..] && past == 0 && Past(inbuff) == 0 && limit - inputGarbage == more
      requires bits == [] ==>
                 && more > 0 && inputLeft == 7 && inbuff.Rest() == [] && inputBuffer == past / 2 && past < 256
                 && limit - inputGarbage == more - 1
      ensures Stream(inbuff, limit) == (bits + LowBits(past, 8 * more))[1..]
      ensures (bits + LowBits(past, 8 * more))[0] == if bits == [] then past % 2 == 1 else bits[0]
    {
      DropFirst(bits, LowBits(past, 8 * more));
      if bits == [] {
        MadeUpBits(past, more);
        assert InputBits(inbuff) == LowBits(past / 2, 7) + [];
      }
    }

    // The refill of pio_compress_get_bit; past the end it reuses what is in the bit buffer.
    method Refill(inbuff: Buffer)
      requires inbuff.Reading() && inputLeft == 0
      modifies this`inputBuffer, this`inputLeft, this`inputGarbage, this`error, inbuff
      ensures inbuff.Reading() && inputLeft == 8
      ensures old(inbuff.Rest()) != [] ==>
                && InputBits(inbuff) == old(InputBits(inbuff)) && inputBuffer < 256
                && inputGarbage == old(inputGarbage) && error == old(error)
      ensures old(inbuff.Rest()) == [] ==>
                && inputBuffer == old(inputBuffer) && inbuff.Rest() == []
                && inputGarbage == old(inputGarbage) + 1
                && error == (old(error) || inputGarbage > BIT_LIMIT)
    {
      var eof := inbuff.Eof();
      if eof {
        inputGarbage := inputGarbage + 1;
        if inputGarbage > BIT_LIMIT {
          error := true;
        }
      } else {
        var _, c := inbuff.UChar(0);
        inputBuffer := c as nat;
      }
      inputLeft := 8;
    }

    // ---- Bits out ----

    // The bits `sent` since the output buffer held `base` are all accounted for: whole
    // bytes in the output buffer, the others at the top of the bit buffer.
    ghost predicate Output(outbuff: Buffer, base: seq<byte>, sent: Bits)
      reads this, outbuff
    {
      && outbuff.Writing()
      && outbuff.Written() == base + WholeBytes(sent)
      && outputBuffer < 256
      && outputLeft == 8 - |sent| % 8
      && ShiftRight(outputBuffer, outputLeft) == Value(Leftover(sent))
    }

    // pio_compress_put_bit
    method PutBit(bit: nat, outbuff: Buffer, ghost base: seq<byte>, ghost sent: Bits)
      requires bit <= 1 && Output(outbuff, base, sent)
      modifies this`outputBuffer, this`outputLeft, outbuff
      ensures Output(outbuff, base, sent + [bit == 1])
    {
      BufferAfterBit(outputBuffer, outputLeft, sent, bit == 1);
      ghost var x, left := outputBuffer / 2 + Weight(bit == 1, 7), outputLeft - 1;
      ByteRange();
      outputBuffer := outputBuffer / 2;
      if bit != 0 {
        outputBuffer := outputBuffer + 128;
      }
      outputLeft := outputLeft - 1;
      assert outputBuffer == x && outputLeft == left;
      SendFull(outbuff, base, WholeBytes(sent), sent + [bit == 1]);
    }

    // The end of pio_compress_put_bit: a full bit buffer goes out.
    method SendFull(outbuff: Buffer, ghost base: seq<byte>, ghost whole: seq<byte>, ghost sent: Bits)
      requires outbuff.Writing() && outbuff.Written() == base + whole
      requires Shifted(outputBuffer, outputLeft, whole, sent)
      modifies this`outputLeft, outbuff
      ensures Output(outbuff, base, sent)
    {
      if outputLeft == 0 {
        var _, _ := outbuff.UChar(outputBuffer as byte);
        outputLeft := 8;
        assert base + whole + [outputBuffer as byte] == base + (whole + [outputBuffer as byte]);
      } else {
        assert whole + [] == whole;
      }
    }

    // The last lines of pio_compress_buffer: the partial byte, then a zero byte.
    method Flush(outbuff: Buffer, ghost base: seq<byte>, ghost sent: Bits)
      requires Output(outbuff, base, sent)
      modifies outbuff
      ensures outbuff.Writing() && outbuff.Written() == base + (Pack(sent) + [0])
    {
      var last := ShiftRight(outputBuffer, outputLeft);
      ValueFitsByte(Leftover(sent));
      var _, _ := outbuff.UChar(last as byte);
      var _, _ := outbuff.UChar(0);
    }

    // ---- Symbols ----

    // pio_compress_splay
    method SplaySymbol(sym: Symbol)
      requires Ok()
      modifies this`state, this`coder, treeArrays
      ensures Ok() && coder == Next(old(coder), sym)
    {
      trees[state].SemiSplay(sym + SUCCMAX);
      state := sym % MAXSTATE;
      coder := Next(coder, sym);
    }

    // pio_compress_compress
    method CompressSymbol(sym: Symbol, outbuff: Buffer, ghost base: seq<byte>, ghost sent: Bits)
      requires Ok() && Output(outbuff, base, sent)
      modifies this`state, this`coder, this`outputBuffer, this`outputLeft, treeArrays, outbuff
      ensures Ok() && coder == Next(old(coder), sym)
      ensures Output(outbuff, base, sent + SymbolCode(old(coder), sym))
    {
      ghost var w := SymbolCode(coder, sym);
      var stack, sp := trees[state].PathTo(sym + SUCCMAX);
      PutPath(stack, sp, outbuff, base, sent, w);
      SplaySymbol(sym);
    }

    // The second loop of pio_compress_compress: the stacked turns, root first.
    method PutPath(stack: array<int>, top: nat, outbuff: Buffer, ghost base: seq<byte>, ghost sent: Bits, ghost w: Bits)
      requires top <= stack.Length && forall k | 0 <= k < stack.Length :: 0 <= stack[k] <= 1
      requires Upward(stack[..top]) == w && Output(outbuff, base, sent)
      modifies this`outputBuffer, this`outputLeft, outbuff
      ensures Output(outbuff, base, sent + w)
    {
      ghost var done, all := sent, sent + w;
      var sp := top;
      while sp > 0
        invariant 0 <= sp <= top && all == done + Upward(stack[..sp])
        invariant Output(outbuff, base, done)
      {
        assert stack[..sp][..sp - 1] == stack[..sp - 1];
        MoveFirst(done, Upward(stack[..sp]));
        sp := sp - 1;
        PutBit(stack[sp], outbuff, base, done);
        done := done + [stack[sp] == 1];
      }
      assert done == all;
    }

    // pio_compress_decompress
    method DecompressSymbol(inbuff: Buffer, ghost limit: nat) returns (sym: Symbol)
      requires Ok() && inbuff.Reading() && Tidy(inbuff) && inputGarbage <= limit
      requires DecodeSymbol(coder, Stream(inbuff, limit)).Some?
      modifies this`state, this`coder, this`inputBuffer, this`inputLeft, this`inputGarbage, this`error
      modifies treeArrays, inbuff
      ensures inbuff.Reading() && Tidy(inbuff) && inputGarbage <= limit
      ensures Ok() && coder == Next(old(coder), sym)
      ensures DecodeSymbol(old(coder), old(Stream(inbuff, limit))) == Some((sym, Stream(inbuff, limit)))
    {
      sym := ReadSymbol(inbuff, limit);
      SplaySymbol(sym);
    }

    // The walk of pio_compress_decompress from the root to a leaf.
    method ReadSymbol(inbuff: Buffer, ghost limit: nat) returns (sym: Symbol)
      requires Ok() && inbuff.Reading() && Tidy(inbuff) && inputGarbage <= limit
      requires DecodeSymbol(coder, Stream(inbuff, limit)).Some?
      modifies this`inputBuffer, this`inputLeft, this`inputGarbage, this`error, inbuff
      ensures inbuff.Reading() && Tidy(inbuff) && inputGarbage <= limit
      ensures Ok() && coder == old(coder)
      ensures DecodeSymbol(old(coder), old(Stream(inbuff, limit))) == Some((sym, Stream(inbuff, limit)))
    {
      var tree := trees[state];
      ghost var t, start := tree.View(), Stream(inbuff, limit);
      var a := ROOT;
      while a <= MAXCHAR
        invariant inbuff.Reading() && Tidy(inbuff) && inputGarbage <= limit
        invariant 1 <= a <= TWICEMAX
        invariant Descend(t, ROOT, start) ==
                  if a > MAXCHAR then Some((a, Stream(inbuff, limit))) else Descend(t, a, Stream(inbuff, limit))
        decreases a <= MAXCHAR, |Stream(inbuff, limit)|
      {
        a := Turn(tree, a, inbuff, limit);
      }
      sym := a - SUCCMAX;
    }

    // One round of that walk.
    method Turn(tree: CodeTree, a: int, inbuff: Buffer, ghost limit: nat) returns (next: int)
      requires tree.Ok() && 1 <= a <= MAXCHAR
      requires inbuff.Reading() && Tidy(inbuff) && inputGarbage <= limit && Stream(inbuff, limit) != []
      modifies this`inputBuffer, this`inputLeft, this`inputGarbage, this`error, inbuff
      ensures inbuff.Reading() && Tidy(inbuff) && inputGarbage <= limit
      ensures 1 <= next <= TWICEMAX && tree.View() == old(tree.View())
      ensures |Stream(inbuff, limit)| < |old(Stream(inbuff, limit))|
      ensures Descend(tree.View(), a, old(Stream(inbuff, limit))) ==
              if next > MAXCHAR then Some((next, Stream(inbuff, limit)))
              else Descend(tree.View(), next, Stream(inbuff, limit))
    {
      ghost var bits := Stream(inbuff, limit);
      var bit := NextBit(inbuff, limit);
      next := tree.Child(a, bit, bits);
    }

    // ---- Whole buffers ----

    // The loop body of pio_compress_buffer; m is the coder at the start of the message.
    method CompressByte(inbuff: Buffer, outbuff: Buffer, ghost base: seq<byte>, ghost m: Coder, ghost msg: seq<byte>)
      returns (sym: byte)
      requires Ok() && ValidCoder(m) && coder == After(m, msg)
      requires Output(outbuff, base, EncodeChars(m, msg))
      requires inbuff.Reading() && inbuff.Rest() != []
      modifies this`state, this`coder, this`outputBuffer, this`outputLeft, treeArrays
      modifies inbuff, outbuff
      ensures inbuff.Reading()
      ensures inbuff.buffer == old(inbuff.buffer) && inbuff.bufferEnd == old(inbuff.bufferEnd)
      ensures sym == old(inbuff.Rest())[0] && inbuff.Rest() == old(inbuff.Rest())[1..]
      ensures Ok() && coder == After(m, msg + [sym])
      ensures Output(outbuff, base, EncodeChars(m, msg + [sym]))
    {
      var _, c := inbuff.UChar(0);
      sym := c;
      EncodeCharsAppend(m, msg, sym);
      CompressSymbol(sym as int, outbuff, base, EncodeChars(m, msg));
    }

    // The loop of pio_compress_buffer.
    method CompressBytes(inbuff: Buffer, outbuff: Buffer, ghost base: seq<byte>)
      requires Ok() && Output(outbuff, base, [])
      requires inbuff.Reading()
      modifies this`state, this`coder, this`outputBuffer, this`outputLeft, treeArrays
      modifies inbuff, outbuff
      ensures inbuff.Reading() && inbuff.Rest() == []
      ensures inbuff.buffer == old(inbuff.buffer) && inbuff.bufferEnd == old(inbuff.bufferEnd)
      ensures Ok() && coder == After(old(coder), old(inbuff.Rest()))
      ensures Output(outbuff, base, EncodeChars(old(coder), old(inbuff.Rest())))
    {
      ghost var m, msg: seq<byte> := coder, [];
      var eof := inbuff.Eof();
      while !eof
        invariant inbuff.Reading()
        invariant inbuff.buffer == old(inbuff.buffer) && inbuff.bufferEnd == old(inbuff.bufferEnd)
        invariant msg + inbuff.Rest() == old(inbuff.Rest()) && (eof <==> inbuff.Rest() == [])
        invariant Ok() && coder == After(m, msg)
        invariant Output(outbuff, base, EncodeChars(m, msg))
        decreases |inbuff.Rest()|
      {
        MoveFirst(msg, inbuff.Rest());
        var sym := CompressByte(inbuff, outbuff, base, m, msg);
        msg := msg + [sym];
        eof := inbuff.Eof();
      }
      assert msg == old(inbuff.Rest());
    }

    // The end mark and the flush that close a compressed stream.
    method Finish(outbuff: Buffer, ghost base: seq<byte>, ghost sent: Bits)
      requires Ok() && Output(outbuff, base, sent)
      modifies this`state, this`coder, this`outputBuffer, this`outputLeft, treeArrays, outbuff
      ensures Ok() && coder == Next(old(coder), EOF_CODE)
      ensures outbuff.Writing()
      ensures outbuff.Written() == base + (Pack(sent + SymbolCode(old(coder), EOF_CODE)) + [0])
    {
      ghost var w := SymbolCode(coder, EOF_CODE);
      CompressSymbol(EOF_CODE, outbuff, base, sent);
      Flush(outbuff, base, sent + w);
    }

    lemma NothingSent(outbuff: Buffer)
      requires outputBuffer == 0 && outputLeft == 8 && outbuff.Writing()
      ensures Output(outbuff, outbuff.Written(), [])
    {
      ByteRange();
    }

    // pio_compress_buffer, after the initialisation.
    method CompressAll(inbuff: Buffer, outbuff: Buffer)
      requires Ok() && outputBuffer == 0 && outputLeft == 8
      requires inbuff.Reading() && outbuff.Writing()
      modifies this`state, this`coder, this`outputBuffer, this`outputLeft, treeArrays
      modifies inbuff, outbuff
      ensures inbuff.Reading() && inbuff.Rest() == []
      ensures inbuff.buffer == old(inbuff.buffer) && inbuff.bufferEnd == old(inbuff.bufferEnd)
      ensures outbuff.Writing()
      ensures outbuff.Written() == old(outbuff.Written()) + (Pack(Encode(old(coder), old(inbuff.Rest()))) + [0])
      ensures Ok() && coder == Next(After(old(coder), old(inbuff.Rest())), EOF_CODE)
    {
      ghost var base, m, msg := outbuff.Written(), coder, inbuff.Rest();
      NothingSent(outbuff);
      CompressBytes(inbuff, outbuff, base);
      Finish(outbuff, base, EncodeChars(m, msg));
    }

    // The loop body of pio_decompress_buffer, when `msg` and an end mark are next.
    // Reading goes on with msg and the end mark, and leaves tail.
    ghost predicate Holds(inbuff: Buffer, limit: nat, msg: seq<byte>, tail: Bits)
      reads this, treeArrays, inbuff
    {
      && Ok() && inbuff.Reading() && Tidy(inbuff) && inputGarbage <= limit
      && Decode(coder, Stream(inbuff, limit)) == Some((msg, tail))
    }

    // Reading has come to the end mark.
    ghost predicate Ended(inbuff: Buffer, limit: nat, tail: Bits)
      reads this, treeArrays, inbuff
    {
      Ok() && inbuff.Reading() && Tidy(inbuff) && inputGarbage <= limit && Stream(inbuff, limit) == tail
    }

    method DecompressByte(inbuff: Buffer, outbuff: Buffer, ghost limit: nat, ghost msg: seq<byte>, ghost tail: Bits)
      returns (sym: Symbol)
      requires Holds(inbuff, limit, msg, tail) && outbuff.Writing() && outbuff != inbuff
      modifies this`state, this`coder, this`inputBuffer, this`inputLeft, this`inputGarbage, this`error
      modifies treeArrays, inbuff, outbuff
      ensures outbuff.Writing() && (sym == EOF_CODE <==> msg == [])
      ensures if sym == EOF_CODE then Ended(inbuff, limit, tail) else Holds(inbuff, limit, msg[1..], tail)
      ensures outbuff.Written() == old(outbuff.Written()) + if msg == [] then [] else [msg[0]]
    {
      sym := NextSymbol(inbuff, limit, msg, tail);
      if sym != EOF_CODE {
        Put(outbuff, (sym % 256) as byte);
      }
    }

    static method Put(outbuff: Buffer, c: byte)
      requires outbuff.Writing()
      modifies outbuff
      ensures outbuff.Writing() && outbuff.Written() == old(outbuff.Written()) + [c]
    {
      var _, _ := outbuff.UChar(c);
    }

    method NextSymbol(inbuff: Buffer, ghost limit: nat, ghost msg: seq<byte>, ghost tail: Bits)
      returns (sym: Symbol)
      requires Holds(inbuff, limit, msg, tail)
      modifies this`state, this`coder, this`inputBuffer, this`inputLeft, this`inputGarbage, this`error
      modifies treeArrays, inbuff
      ensures inbuff.Reading() && (sym == EOF_CODE <==> msg == [])
      ensures if sym == EOF_CODE then Ended(inbuff, limit, tail)
              else msg[0] == (sym % 256) as byte && Holds(inbuff, limit, msg[1..], tail)
    {
      ghost var m, bits := coder, Stream(inbuff, limit);
      sym := DecompressSymbol(inbuff, limit);
      DecodeNext(m, bits, sym, Stream(inbuff, limit), msg, tail);
    }

    // pio_decompress_buffer, after the initialisation: the message up to the end mark is
    // appended, and no bit beyond the mark has been used.
    method DecompressAll(inbuff: Buffer, outbuff: Buffer, ghost limit: nat, ghost msg: seq<byte>, ghost tail: Bits)
      requires Ok() && inbuff.Reading() && outbuff.Writing() && Tidy(inbuff) && inputGarbage <= limit
      requires Decode(coder, Stream(inbuff, limit)) == Some((msg, tail))
      modifies this`state, this`coder, this`inputBuffer, this`inputLeft, this`inputGarbage, this`error
      modifies treeArrays, inbuff, outbuff
      ensures inbuff.Reading() && Tidy(inbuff) && inputGarbage <= limit && Stream(inbuff, limit) == tail
      ensures outbuff.Writing() && outbuff.Written() == old(outbuff.Written()) + msg
    {
      ghost var left, all := msg, outbuff.Written() + msg;
      var sym: Symbol := 0;
      while sym != EOF_CODE
        invariant outbuff.Writing() && outbuff != inbuff
        invariant if sym == EOF_CODE then left == [] && Ended(inbuff, limit, tail) else Holds(inbuff, limit, left, tail)
        invariant outbuff.Written() + left == all
        decreases sym != EOF_CODE, |left|
      {
        ghost var was := outbuff.Written();
        sym := DecompressByte(inbuff, outbuff, limit, left, tail);
        if left != [] {
          MoveFirst(was, left);
          left := left[1..];
        }
      }
    }

    lemma StreamAtStart(inbuff: Buffer, residue: byte, limit: nat)
      requires inbuff.Reading() && inputBuffer == residue as nat && inputLeft == 0 && inputGarbage == 0
      ensures Stream(inbuff, limit) == Padded(inbuff.Rest(), residue, limit)
    {
      assert InputBits(inbuff) == Unpack(inbuff.Rest());
    }

    // The same from the start of an input.
    method DecompressRest(inbuff: Buffer, outbuff: Buffer, residue: byte)
      requires Ok() && inbuff.Reading() && outbuff.Writing() && Ends(inbuff.Rest(), residue)
      requires coder == Initial() && inputBuffer == residue as nat && inputLeft == 0 && inputGarbage == 0 && !error
      modifies this`state, this`coder, this`inputBuffer, this`inputLeft, this`inputGarbage, this`error
      modifies treeArrays, inbuff, outbuff
      ensures inbuff.Reading() && outbuff.Writing()
      ensures outbuff.Written() == old(outbuff.Written()) + Produced(old(inbuff.Rest()), residue)
      ensures inputGarbage == MadeUp(|old(inbuff.Rest())|, Used(old(inbuff.Rest()), residue))
      ensures error <==> inputGarbage > BIT_LIMIT
    {
      ghost var bytes := inbuff.Rest();
      ghost var limit, msg, tail := WholeStream(bytes, residue);
      StreamAtStart(inbuff, residue, limit);
      DecompressAll(inbuff, outbuff, limit, msg, tail);
      MadeUpIs(|bytes|, limit, |tail|, inputGarbage, inputLeft, |inbuff.Rest()|);
    }
  }

  // The bytes made up, from what is left over.
  lemma MadeUpIs(have: nat, limit: nat, tail: nat, garbage: nat, left: nat, rest: nat)
    requires tail == left + 8 * rest + 8 * (limit - garbage) && left <= 7 && garbage <= limit
    requires garbage > 0 ==> rest == 0
    ensures garbage == MadeUp(have, 8 * have + 8 * limit - tail)
  {
  }

  // pio_compress_buffer; residue is what an earlier run left in the input bit buffer
  method CompressBuffer(inbuff: Buffer, outbuff: Buffer, residue: byte)
    requires inbuff.Reading() && outbuff.Writing()
    modifies inbuff, outbuff
    ensures inbuff.Reading() && inbuff.Rest() == []
    ensures inbuff.buffer == old(inbuff.buffer) && inbuff.bufferEnd == old(inbuff.bufferEnd)
    ensures outbuff.Writing()
    ensures outbuff.Written() == old(outbuff.Written()) + Compressed(old(inbuff.Rest()))
  {
    var c := new PioCompressor(residue as nat);
    c.CompressAll(inbuff, outbuff);
  }

  // pio_decompress_buffer, on any input on which it ends: the message read is appended, and the
  // bytes made up past the end are exactly those its last bits needed
  method DecompressBuffer(inbuff: Buffer, outbuff: Buffer, residue: byte) returns (garbage: nat, error: bool)
    requires inbuff.Reading() && outbuff.Writing()
    requires Ends(inbuff.Rest(), residue)
    modifies inbuff, outbuff
    ensures inbuff.Reading() && outbuff.Writing()
    ensures outbuff.Written() == old(outbuff.Written()) + Produced(old(inbuff.Rest()), residue)
    ensures garbage == MadeUp(|old(inbuff.Rest())|, Used(old(inbuff.Rest()), residue))
    ensures error <==> garbage > 16
  {
    var c := new PioCompressor(residue as nat);
    c.DecompressRest(inbuff, outbuff, residue);
    return c.inputGarbage, c.error;
  }

  // A stream that is long enough.
  lemma WholeStream(bytes: seq<byte>, residue: byte) returns (limit: nat, msg: seq<byte>, tail: Bits)
    requires Ends(bytes, residue)
    ensures Decode(Initial(), Padded(bytes, residue, limit)) == Some((msg, tail))
    ensures msg == Produced(bytes, residue) && 8 * |bytes| + 8 * limit - |tail| == Used(bytes, residue)
  {
    limit := Reach(bytes, residue);
    var r := Decode(Initial(), Padded(bytes, residue, limit));
    msg, tail := r.value.0, r.value.1;
  }
}
