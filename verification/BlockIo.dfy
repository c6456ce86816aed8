/** Unaligned reads and writes on a device that only transfers whole aligned blocks
  (src/libc/fdl.c, balign_io).  The device is an array of bytes; a block request moves
  one whole block between it and a buffer. */
module BlockIo {
  import opened Options
  import opened PowersOfTwo
  import opened Words

  // pos with its low k binary digits cleared: pos & ~(2^k - 1)
  function ClearLow(pos: nat, k: nat): (r: nat)
    decreases k
  {
    if k == 0 then pos else 2 * ClearLow(pos / 2, k - 1)
  }

  lemma {:induction false} ClearLowAligns(pos: nat, k: nat)
    ensures OnBlock(ClearLow(pos, k), Pow2(k))
    ensures ClearLow(pos, k) <= pos < ClearLow(pos, k) + Pow2(k)
    decreases k
  {
    if k == 0 {
      ProductOne(pos);
    } else {
      ClearLowAligns(pos / 2, k - 1);
      var j: nat :| ClearLow(pos / 2, k - 1) == Product(j, Pow2(k - 1));
      ProductTwice(j, Pow2(k - 1));
    }
  }

  // Where a block may begin.
  ghost predicate OnBlock(apos: nat, size: nat) {
    exists j: nat :: apos == Product(j, size)
  }

  // j blocks
  function Product(j: nat, size: nat): (r: nat) {
    if j == 0 then 0 else Product(j - 1, size) + size
  }

  lemma {:induction false} ProductOne(j: nat)
    ensures Product(j, 1) == j
  {
    if j > 0 {
      ProductOne(j - 1);
    }
  }

  lemma {:induction false} ProductTwice(j: nat, size: nat)
    ensures Product(j, 2 * size) == 2 * Product(j, size)
  {
    if j > 0 {
      ProductTwice(j - 1, size);
    }
  }

  lemma {:induction false} ProductAdd(i: nat, j: nat, size: nat)
    ensures Product(i + j, size) == Product(i, size) + Product(j, size)
    decreases j
  {
    if j > 0 {
      ProductAdd(i, j - 1, size);
    }
  }

  lemma ProductMonotone(a: nat, b: nat, c: nat)
    requires a <= b
    ensures Product(a, c) <= Product(b, c)
  {
    ProductAdd(a, b - a, c);
  }

  // A block that begins inside a device of whole blocks ends inside it.
  lemma BlockFits(apos: nat, length: nat, size: nat)
    requires OnBlock(apos, size) && OnBlock(length, size) && apos < length
    ensures apos + size <= length
  {
    var j: nat :| apos == Product(j, size);
    var m: nat :| length == Product(m, size);
    if m <= j {
      ProductMonotone(m, j, size);
    } else {
      ProductMonotone(j + 1, m, size);
    }
  }

  method MemCpy(dst: array<byte>, d: int, src: array<byte>, s: int, n: int)
    requires 0 <= n && 0 <= d && d + n <= dst.Length && 0 <= s && s + n <= src.Length && dst != src
    modifies dst
    ensures forall i | 0 <= i < dst.Length ::
              dst[i] == if d <= i < d + n then src[s + (i - d)] else old(dst[i])
  {
    for i := 0 to n
      invariant forall k | 0 <= k < dst.Length ::
                  dst[k] == if d <= k < d + i then src[s + (k - d)] else old(dst[k])
    {
      dst[d + i] := src[s + i];
    }
  }

  // Unsigned comparison, as C compares an int with an unsigned one.
  function Unsigned(count: int): (u: nat)
    ensures 0 <= count < ULONG_RANGE ==> u == count
    ensures -ULONG_RANGE <= count < 0 ==> u == count + ULONG_RANGE
  {
    count % ULONG_RANGE
  }

  function Least(a: int, b: int): (r: int) {
    if a < b then a else b
  }

  function Most(a: int, b: int): (r: int) {
    if a < b then b else a
  }

  // What is asked for: n bytes at p, which lies in the block at a, of a device of that length.
  datatype Transfer = Transfer(p: nat, n: nat, a: nat, size: nat, length: nat)

  predicate TransferOk(t: Transfer) {
    t.a <= t.p < t.a + t.size && t.n > 0
  }

  // A transfer in blocks of 2^k bytes.
  function InBlocks(p: nat, n: nat, k: nat, length: nat): (t: Transfer)
    ensures TransferOk(t) || n == 0
  {
    ClearLowAligns(p, k);
    Transfer(p, n, ClearLow(p, k), Pow2(k), length)
  }

  // How many requests the server answers before it fails one, if it ever does.
  type Patience = Option<nat>

  predicate Answers(g: Patience, n: nat) {
    g.Some? ==> n <= g.value
  }

  // What is left of it after n requests.
  function Less(g: Patience, n: nat): (r: Patience)
    requires Answers(g, n)
  {
    if g.None? then None else Some(g.value - n)
  }

  lemma LessIs(g: Patience, n: nat, m: nat)
    requires Answers(g, n)
    ensures Less(g, n) == Some(m) <==> g == Some(n + m)
    ensures Answers(Less(g, n), m) <==> Answers(g, n + m)
    ensures Answers(g, n + m) ==> Less(Less(g, n), m) == Less(g, n + m)
  {
  }

  // How many bytes there are from apos, up to a block.
  function Available(length: nat, apos: nat, size: nat): (x: nat) {
    if length <= apos then 0 else Least(size, length - apos)
  }

  // Where block b of a transfer begins.
  function At(t: Transfer, b: nat): (apos: nat) {
    t.a + Product(b, t.size)
  }

  lemma AtNext(t: Transfer, b: nat)
    requires TransferOk(t)
    ensures At(t, b + 1) == At(t, b) + t.size
    ensures At(t, 0) == t.a <= t.p < At(t, 1) && At(t, b) >= At(t, if b > 0 then 1 else 0)
  {
    assert Product(1, t.size) == Product(0, t.size) + t.size;
    ProductMonotone(if b > 0 then 1 else 0, b, t.size);
  }

  // A write has to read the block first, because part of it is not asked for.
  predicate NeedsRead(t: Transfer, b: nat) {
    At(t, b) < t.p || At(t, b) + t.size > t.p + t.n
  }

  // The requests that writing the first b blocks takes.
  function Requests(t: Transfer, b: nat): (n: nat) {
    if b == 0 then 0 else Requests(t, b - 1) + if NeedsRead(t, b - 1) then 2 else 1
  }

  // The bytes asked for that precede block b.
  function Before(t: Transfer, b: nat): (w: nat) {
    Most(0, Least(t.n, At(t, b) - t.p))
  }

  // The bytes asked for that there are.
  function Whole(t: Transfer): (n: nat) {
    if t.length <= t.p then 0 else Least(t.n, t.length - t.p)
  }

  // The bytes read: all there are, or those of the blocks before the request that fails.
  function ReadCount(t: Transfer, g: Patience): (c: nat) {
    if g.None? then Whole(t) else Least(Whole(t), Before(t, g.value))
  }

  // A read that delivers nothing does so because its first request fails, or, when the position is
  // the end and in the middle of a block, its second.
  predicate ReadFails(t: Transfer, g: Patience) {
    g == Some(0) || (g == Some(1) && t.p == t.length && t.a < t.p)
  }

  // Past the end, and not where a block begins.
  predicate Beyond(t: Transfer) {
    t.p > t.length && t.a != t.p
  }

  // The bytes asked for do not fit the working buffer behind the place of the first.
  predicate Overrun(t: Transfer) {
    Beyond(t) && t.p - t.a + t.n > t.size
  }

  // Writing stops after b whole blocks: all are written, or reading block b fails, or writing it is
  // refused because there is no such block or the request fails.
  ghost predicate WriteStops(t: Transfer, g: Patience, b: nat, failed: bool, refused: bool) {
    && Answers(g, Requests(t, b)) && (b > 0 ==> At(t, b) <= t.length)
    && (b > 0 ==> At(t, b - 1) < t.p + t.n)
    && var extra := if NeedsRead(t, b) then 1 else 0;
       if !failed then !refused && At(t, b) >= t.p + t.n
       else
         && At(t, b) < t.p + t.n
         && if refused then
              Answers(g, Requests(t, b) + extra) && (g == Some(Requests(t, b) + extra) || At(t, b + 1) > t.length)
            else NeedsRead(t, b) && g == Some(Requests(t, b))
  }

  lemma {:induction false} RequestsGrow(t: Transfer, b: nat, b': nat)
    requires TransferOk(t) && b < b'
    ensures Requests(t, b) + (if NeedsRead(t, b) then 2 else 1) <= Requests(t, b') && At(t, b + 1) <= At(t, b')
    decreases b'
  {
    AtNext(t, b' - 1);
    if b < b' - 1 {
      RequestsGrow(t, b, b' - 1);
    }
  }

  // What is asked for, the device and the server's patience leave no choice.
  lemma WriteStopsOnce(t: Transfer, g: Patience, b: nat, failed: bool, refused: bool, b': nat, failed': bool,
                       refused': bool)
    requires TransferOk(t) && WriteStops(t, g, b, failed, refused) && WriteStops(t, g, b', failed', refused')
    ensures b == b' && failed == failed' && refused == refused'
  {
    if b < b' {
      NotSooner(t, g, b, failed, refused, b', failed', refused');
    } else if b' < b {
      NotSooner(t, g, b', failed', refused', b, failed, refused);
    }
  }

  lemma NotSooner(t: Transfer, g: Patience, b: nat, failed: bool, refused: bool, b': nat, failed': bool, refused': bool)
    requires TransferOk(t) && WriteStops(t, g, b, failed, refused) && WriteStops(t, g, b', failed', refused')
    ensures b >= b'
  {
    if b < b' {
      RequestsGrow(t, b, b');
      AtNext(t, b);
    }
  }

  // What a write says it has written: a block whose write is refused is counted.
  function WriteCount(t: Transfer, b: nat, refused: bool): (c: nat) {
    var part := At(t, b) - t.p;
    var x := if NeedsRead(t, b) then Available(t.length, At(t, b), t.size) else t.size;
    if !refused then Before(t, b)
    else if part + x < 0 then t.n
    else Least(t.n, part + x)
  }

  // When reading, the next block is the one at `count`, or the device has come to its end.
  predicate AtBlock(p: nat, length: nat, apos: nat, count: int) {
    if apos > length && count >= 0 && p <= length then count == length - p
    else count == apos - p && (count > 0 ==> apos <= length)
  }

  // Before round b of reading, when every request so far has delivered something.
  predicate ReadOn(t: Transfer, g: Patience, b: nat, count: int) {
    && AtBlock(t.p, t.length, At(t, b), count) && count < t.n && Answers(g, b)
    && (b > 0 ==> At(t, b - 1) < t.length && count >= 0) && (count >= 0 ==> !Beyond(t))
  }

  // After round b, whose request gave x, if another follows,
  lemma ReadOnward(t: Transfer, g: Patience, b: nat, count0: int, x: int)
    requires TransferOk(t) && ReadOn(t, g, b, count0) && g != Some(b)
    requires x == Available(t.length, At(t, b), t.size) && x > 0 && 0 <= count0 + x < t.n
    ensures ReadOn(t, g, b + 1, count0 + x)
  {
    AtNext(t, 0);
    AtNext(t, b);
  }

  // if there is nothing more to read,
  lemma ReadEnds(t: Transfer, g: Patience, b: nat, count0: int, x: int)
    requires TransferOk(t) && ReadOn(t, g, b, count0) && !Beyond(t) && g != Some(b)
    requires x == Available(t.length, At(t, b), t.size) && (x == 0 || count0 + x >= t.n)
    ensures Least(t.n, count0 + x) == Whole(t) == ReadCount(t, g) && (Whole(t) == 0 ==> x == 0 && !ReadFails(t, g))
  {
    AtNext(t, 0);
    AtNext(t, b);
    if b > 0 {
      AtNext(t, b - 1);
    }
    if g.Some? && b + 1 < g.value {
      RequestsGrow(t, b + 1, g.value);
      AtNext(t, b + 1);
    }
  }

  // and if the request failed.
  lemma ReadUnanswered(t: Transfer, b: nat, count0: int)
    requires TransferOk(t) && ReadOn(t, Some(b), b, count0) && !Beyond(t)
    ensures if count0 > 0 then count0 == ReadCount(t, Some(b)) else ReadCount(t, Some(b)) == 0 && ReadFails(t, Some(b))
  {
    AtNext(t, 0);
    AtNext(t, b);
    if b > 0 {
      AtNext(t, b - 1);
    }
  }

  lemma ReadBeyond(t: Transfer, g: Patience, b: nat, count0: int, x: int)
    requires TransferOk(t) && ReadOn(t, g, b, count0)
    requires x == if g == Some(b) then -1 else Available(t.length, At(t, b), t.size)
    ensures x >= 0 && count0 + x < 0 <==> Beyond(t) && g != Some(0)
    ensures Beyond(t) ==> b == 0 && count0 == t.a - t.p < 0
  {
    AtNext(t, b);
  }

  lemma ReadNext(t: Transfer, g: Patience, b: nat, count0: int, x: int)
    requires TransferOk(t) && ReadOn(t, g, b, count0)
    requires x == if g == Some(b) then -1 else Available(t.length, At(t, b), t.size)
    ensures x >= 0 && count0 + x < 0 <==> Beyond(t) && g != Some(0)
    ensures x >= 0 && count0 + x < 0 ==> b == 0
    ensures var count := if x < 0 then count0 else Least(t.n, count0 + x);
            !(x >= 0 && count0 + x < 0) ==>
              if x > 0 && count < t.n then ReadOn(t, g, b + 1, count) && count > count0
              else if count > 0 then count == ReadCount(t, g) && !Beyond(t)
              else Beyond(t) || (ReadCount(t, g) == 0 && (x < 0 <==> ReadFails(t, g)) && x <= 0)
  {
    ReadBeyond(t, g, b, count0, x);
    if x > 0 && 0 <= count0 + x < t.n {
      ReadOnward(t, g, b, count0, x);
    } else if x < 0 && !Beyond(t) {
      ReadUnanswered(t, b, count0);
    } else if !Beyond(t) {
      ReadEnds(t, g, b, count0, x);
    }
  }

  // Before round b of writing, when every block so far has been written.
  predicate WriteOn(t: Transfer, g: Patience, b: nat, count: int) {
    && count == At(t, b) - t.p && count < t.n && Answers(g, Requests(t, b))
    && (b > 0 ==> At(t, b) <= t.length && count > 0) && (count >= 0 ==> !Beyond(t))
  }

  // What writing a block comes to, by the server's patience: where the count goes, and which request
  // it stops at.
  predicate BlockWritten(length: nat, apos: nat, size: nat, n: nat, count0: int, good: Patience,
                         count: int, x: int, fault: bool, refused: bool) {
    var partial := count0 < 0 || count0 + size > n;
    var extra := if partial then 1 else 0;
    var got := if partial then Available(length, apos, size) else size;
    if partial && good == Some(0) then !fault && !refused && x == -1 && count == count0
    else if count0 + got < 0 && n - count0 > size then fault && !refused
    else
      && !fault && Answers(good, extra) && (refused <==> good == Some(extra) || apos + size > length)
      && x == (if refused then -1 else size)
      && count == if count0 + got < 0 then n else Least(n, count0 + got)
  }

  // After round b, if the block was written.
  lemma WriteNext(t: Transfer, g: Patience, b: nat, count: int, x: int)
    requires TransferOk(t) && WriteOn(t, g, b, At(t, b) - t.p) && x > 0
    requires BlockWritten(t.length, At(t, b), t.size, t.n, At(t, b) - t.p, Less(g, Requests(t, b)), count, x, false,
                          false)
    requires Answers(g, Requests(t, b + 1))
    ensures count == Before(t, b + 1) > At(t, b) - t.p && !Beyond(t)
    ensures if count < t.n then WriteOn(t, g, b + 1, count) else WriteStops(t, g, b + 1, false, false) && count == t.n
  {
    AtNext(t, 0);
    AtNext(t, b);
    assert At(t, b + 1) <= t.length;
  }

  // Past the end only the first block is tried.
  lemma BeyondFirst(t: Transfer, g: Patience, b: nat)
    requires TransferOk(t) && WriteOn(t, g, b, At(t, b) - t.p) && Beyond(t)
    ensures b == 0 && At(t, b) < t.p && Requests(t, b) == 0 && NeedsRead(t, b)
  {
    AtNext(t, b);
  }

  // If the block could not be read,
  lemma WriteUnread(t: Transfer, g: Patience, b: nat)
    requires TransferOk(t) && WriteOn(t, g, b, At(t, b) - t.p)
    requires NeedsRead(t, b) && Less(g, Requests(t, b)) == Some(0)
    ensures WriteStops(t, g, b, true, false) && Most(0, At(t, b) - t.p) == WriteCount(t, b, false)
    ensures Beyond(t) ==> g == Some(0)
  {
    LessIs(g, Requests(t, b), 0);
    AtNext(t, b);
    if b > 0 {
      AtNext(t, b - 1);
    }
    if Beyond(t) {
      BeyondFirst(t, g, b);
    }
  }

  // or writing it was refused.
  lemma WriteRefused(t: Transfer, g: Patience, b: nat, extra: nat)
    requires TransferOk(t) && WriteOn(t, g, b, At(t, b) - t.p) && extra == (if NeedsRead(t, b) then 1 else 0)
    requires Answers(Less(g, Requests(t, b)), extra)
    requires Less(g, Requests(t, b)) == Some(extra) || At(t, b) + t.size > t.length
    ensures WriteStops(t, g, b, true, true)
  {
    LessIs(g, Requests(t, b), extra);
    AtNext(t, b);
    if b > 0 {
      AtNext(t, b - 1);
    }
  }

  // Whichever it was.
  lemma WriteEnds(t: Transfer, g: Patience, b: nat, count: int, x: int, fault: bool, refused: bool)
    requires TransferOk(t) && WriteOn(t, g, b, At(t, b) - t.p) && (fault || x <= 0)
    requires BlockWritten(t.length, At(t, b), t.size, t.n, At(t, b) - t.p, Less(g, Requests(t, b)), count, x, fault,
                          refused)
    ensures fault ==> Overrun(t) && g != Some(0)
    ensures !fault ==> x == -1 && count <= t.n && (Overrun(t) ==> g == Some(0))
    ensures !fault ==> WriteStops(t, g, b, true, refused) && Most(0, count) == WriteCount(t, b, refused)
  {
    LessIs(g, Requests(t, b), 0);
    if fault || refused {
      AtNext(t, b);
      if Beyond(t) {
        BeyondFirst(t, g, b);
      }
    }
    if refused {
      WriteRefused(t, g, b, if NeedsRead(t, b) then 1 else 0);
    } else if !fault {
      WriteUnread(t, g, b);
    }
  }

  // On a device of whole blocks that has all that is asked for, a refused write is counted, so more
  // is said to be written than has been.
  lemma RefusedCounts(t: Transfer, g: Patience, b: nat)
    requires TransferOk(t) && WriteStops(t, g, b, true, true)
    requires OnBlock(t.a, t.size) && OnBlock(t.length, t.size) && t.p + t.n <= t.length
    ensures WriteCount(t, b, true) > Before(t, b)
    ensures WriteCount(t, b, true) == Before(t, b + 1)
  {
    var j: nat :| t.a == Product(j, t.size);
    ProductAdd(j, b, t.size);
    assert OnBlock(At(t, b), t.size);
    BlockFits(At(t, b), t.length, t.size);
    AtNext(t, b);
  }

  class Port {
    const device: array<byte>
    var pos: nat
    var good: Patience

    constructor (device: array<byte>, good: Patience)
      ensures this.device == device && pos == 0 && this.good == good
    {
      this.device := device;
      this.good := good;
      pos := 0;
    }

    // Whether the server fails the next request.
    method Fails() returns (fails: bool)
      modifies this`good
      ensures fails <==> old(good) == Some(0)
      ensures !fails ==> good == Less(old(good), 1)
    {
      fails := good.Some? && good.value == 0;
      if fails {
        good := *;
      } else if good.Some? {
        good := Some(good.value - 1);
      }
    }

    // FS_ABSREAD: it fails, or reads what there is
    method ReadRequest(abuf: array<byte>, apos: nat) returns (x: int)
      requires abuf != device
      modifies this`good, abuf
      ensures x == if old(good) == Some(0) then -1 else Available(device.Length, apos, abuf.Length)
      ensures x >= 0 ==> good == Less(old(good), 1)
      ensures forall i | 0 <= i < x :: abuf[i] == device[apos + i]
    {
      var fails := Fails();
      if fails {
        return -1;
      }
      x := Available(device.Length, apos, abuf.Length);
      if x > 0 {
        MemCpy(abuf, 0, device, apos, x);
      }
    }

    // FS_ABSWRITE: it fails, as it must when there is no such block, or writes the whole block
    method WriteRequest(abuf: array<byte>, apos: nat) returns (x: int)
      requires abuf != device
      modifies this`good, device
      ensures x == if old(good) == Some(0) || apos + abuf.Length > device.Length then -1 else abuf.Length
      ensures x >= 0 ==> good == Less(old(good), 1)
      ensures forall i | 0 <= i < device.Length ::
                device[i] == if x >= 0 && apos <= i < apos + abuf.Length then abuf[i - apos] else old(device[i])
    {
      var fails := Fails();
      if fails || apos + abuf.Length > device.Length {
        return -1;
      }
      MemCpy(device, apos, abuf, 0, abuf.Length);
      x := abuf.Length;
    }

    // The bytes below `count` have been read.
    ghost predicate ReadSoFar(buf: array<byte>, was: seq<byte>, count: int)
      reads this`pos, buf, device
    {
      && |was| == buf.Length && (count > 0 ==> pos + count <= device.Length)
      && forall i | 0 <= i < buf.Length :: buf[i] == if i < count then device[pos + i] else was[i]
    }

    // The bytes below `count` have been written.
    ghost predicate WrittenSoFar(buf: array<byte>, was: seq<byte>, count: int)
      reads this`pos, buf, device
    {
      && |was| == device.Length && count <= buf.Length
      && forall i | 0 <= i < device.Length :: device[i] == if pos <= i < pos + count then buf[i - pos] else was[i]
    }

    // Where balign_io's loop is: `count` bytes done, or that many before the first one.
    predicate Begun(count: int, bufSt: int, nbyte: nat, size: nat) {
      count < nbyte && bufSt == (if count < 0 then -count else 0) && -count < size && nbyte + size <= INT_MAX
    }

    // One round of balign_io's loop when reading.  A count that stays below zero, because the
    // position is past the end, is large when compared as unsigned; the fault is a copy from
    // beyond the working buffer.
    method ReadBlock(abuf: array<byte>, buf: array<byte>, apos: nat, count0: int, bufSt: int, nbyte: nat,
                     ghost was: seq<byte>)
      returns (count: int, x: int, fault: bool)
      requires buf != device && abuf != device && abuf != buf && nbyte <= buf.Length
      requires Begun(count0, bufSt, nbyte, abuf.Length) && AtBlock(pos, device.Length, apos, count0)
      requires ReadSoFar(buf, was, count0)
      modifies this`good, abuf, buf
      ensures x == if old(good) == Some(0) then -1 else Available(device.Length, apos, abuf.Length)
      ensures x >= 0 ==> good == Less(old(good), 1)
      ensures x < 0 ==> !fault && count == count0 && ReadSoFar(buf, was, count)
      ensures x >= 0 && count0 + x >= 0 ==>
                !fault && count == Least(nbyte, count0 + x) && ReadSoFar(buf, was, count)
      ensures x >= 0 && count0 + x < 0 ==>
                (fault <==> bufSt + nbyte > abuf.Length) && count == nbyte && buf[nbyte..] == old(buf[nbyte..])
    {
      count, fault := count0, false;
      x := ReadRequest(abuf, apos);
      if x < 0 {
        return;
      }
      var offs := if count >= 0 then count else 0;
      count := count + x;
      if Unsigned(count) > nbyte {
        count := nbyte;
      }
      if bufSt + (count - offs) > abuf.Length {
        fault := true;
        return;
      }
      MemCpy(buf, offs, abuf, bufSt, count - offs);
    }

    // One round of balign_io's loop when writing, up to the write: the block is read first unless
    // all of it will be overwritten, and the caller's bytes go over it.
    method MergeBlock(abuf: array<byte>, buf: array<byte>, apos: nat, count0: int, bufSt: int, nbyte: nat)
      returns (count: int, x: int, fault: bool)
      requires buf != device && abuf != device && abuf != buf && nbyte <= buf.Length
      requires Begun(count0, bufSt, nbyte, abuf.Length) && count0 == apos - pos
      modifies this`good, abuf
      ensures var partial := count0 < 0 || count0 + abuf.Length > nbyte;
              && x == (if !partial then abuf.Length else if old(good) == Some(0) then -1
                       else Available(device.Length, apos, abuf.Length))
              && (x >= 0 ==> good == if partial then Less(old(good), 1) else old(good))
      ensures x < 0 ==> !fault && count == count0
      ensures x >= 0 && count0 + x >= 0 ==> !fault && count == Least(nbyte, count0 + x)
      ensures x >= 0 && count0 + x < 0 ==> (fault <==> bufSt + nbyte > abuf.Length) && count == nbyte
      ensures x == abuf.Length && apos + abuf.Length <= device.Length ==>
                forall i | 0 <= i < abuf.Length ::
                  abuf[i] == if 0 <= count0 + i < count then buf[count0 + i] else device[apos + i]
    {
      count, fault := count0, false;
      var offs := if count >= 0 then count else 0;
      if count < 0 || count + abuf.Length > nbyte {
        x := ReadRequest(abuf, apos);
        if x < 0 {
          return;
        }
        count := count + x;
        if Unsigned(count) > nbyte {
          count := nbyte;
        }
      } else {
        count := count + abuf.Length;
        x := abuf.Length;
      }
      if bufSt + (count - offs) > abuf.Length {
        fault := true;
        return;
      }
      MemCpy(abuf, bufSt, buf, offs, count - offs);
    }

    // The count goes up before the block is written; `refused` says that the write failed.
    method WriteBlock(abuf: array<byte>, buf: array<byte>, apos: nat, count0: int, bufSt: int, nbyte: nat,
                      ghost was: seq<byte>)
      returns (count: int, x: int, fault: bool, ghost refused: bool)
      requires buf != device && abuf != device && abuf != buf && nbyte <= buf.Length
      requires Begun(count0, bufSt, nbyte, abuf.Length) && count0 == apos - pos
      requires WrittenSoFar(buf, was, Most(0, count0))
      modifies this`good, abuf, device
      ensures BlockWritten(device.Length, apos, abuf.Length, nbyte, count0, old(good), count, x, fault, refused)
      ensures !fault && x > 0 ==>
                var extra := if count0 < 0 || count0 + abuf.Length > nbyte then 1 else 0;
                Answers(old(good), extra + 1) && good == Less(old(good), extra + 1)
      ensures fault || x < 0 ==> WrittenSoFar(buf, was, Most(0, count0))
      ensures !fault && x >= 0 ==> WrittenSoFar(buf, was, count)
    {
      refused := false;
      count, x, fault := MergeBlock(abuf, buf, apos, count0, bufSt, nbyte);
      if fault || x < 0 {
        return;
      }
      x := WriteRequest(abuf, apos);
      refused := x < 0;
    }

    // What a transfer leaves alone.
    ghost predicate Untouched(buf: array<byte>, buf0: seq<byte>, device0: seq<byte>, nbyte: nat, doRead: bool)
      reads buf, device
    {
      && nbyte <= buf.Length == |buf0|
      && if doRead then device[..] == device0 && buf[nbyte..] == buf0[nbyte..] else buf[..] == buf0
    }

    // Before round b of balign_io's loop when reading, for a server of patience g at its start.
    ghost predicate ReadGoing(t: Transfer, g: Patience, b: nat, buf: array<byte>, was: seq<byte>, count: int,
                              bufSt: int)
      reads this, buf, device
    {
      && TransferOk(t) && t.p == pos && t.length == device.Length && Begun(count, bufSt, t.n, t.size)
      && ReadOn(t, g, b, count) && ReadSoFar(buf, was, count) && good == Less(g, b)
    }

    // After the loop.
    ghost predicate ReadStopped(t: Transfer, g: Patience, buf: array<byte>, was: seq<byte>, count: int, x: int)
      reads this`pos, buf, device
    {
      && TransferOk(t) && t.p == pos && t.length == device.Length && x >= -1 && (Overrun(t) ==> g == Some(0))
      && |was| == buf.Length
      && if Beyond(t) && g != Some(0) then count == t.n <= buf.Length && buf[t.n..] == was[t.n..]
         else
           && Most(0, count) == ReadCount(t, g) && ReadSoFar(buf, was, count)
           && (count <= 0 ==> x == if ReadFails(t, g) then -1 else 0)
    }

    // And when writing: before round b,
    ghost predicate WriteGoing(t: Transfer, g: Patience, b: nat, buf: array<byte>, was: seq<byte>, count: int,
                               bufSt: int)
      reads this, buf, device
    {
      && TransferOk(t) && t.p == pos && t.length == device.Length && Begun(count, bufSt, t.n, t.size)
      && WriteOn(t, g, b, count) && WrittenSoFar(buf, was, Most(0, count)) && good == Less(g, Requests(t, b))
    }

    // and after the loop, when b blocks have been written.
    ghost predicate WriteStopped(t: Transfer, g: Patience, b: nat, buf: array<byte>, was: seq<byte>, count: int,
                                 x: int, refused: bool)
      reads this`pos, buf, device
    {
      && TransferOk(t) && t.p == pos && t.length == device.Length && x >= -1 && (Overrun(t) ==> g == Some(0))
      && WriteStops(t, g, b, x < 0, refused) && WrittenSoFar(buf, was, Before(t, b))
      && Most(0, count) == WriteCount(t, b, refused)
    }

    // A round of reading, and the test for another.
    method ReadRound(abuf: array<byte>, buf: array<byte>, apos: nat, count0: int, bufSt: int, nbyte: nat,
                     ghost t: Transfer, ghost g: Patience, ghost b: nat, ghost was: seq<byte>)
      returns (count: int, x: int, more: bool, fault: bool)
      requires buf != device && abuf != device && abuf != buf && abuf.Length == t.size && 0 < t.n == nbyte <= buf.Length
      requires ReadGoing(t, g, b, buf, was, count0, bufSt) && apos == At(t, b)
      modifies this`good, abuf, buf
      ensures fault ==> Overrun(t) && g != Some(0) && buf[nbyte..] == old(buf[nbyte..])
      ensures !fault && more ==> ReadGoing(t, g, b + 1, buf, was, count, 0) && count > count0 && x > 0
      ensures !fault && !more ==> ReadStopped(t, g, buf, was, count, x)
    {
      count, x, fault := ReadBlock(abuf, buf, apos, count0, bufSt, nbyte, was);
      ReadNext(t, g, b, count0, x);
      more := !fault && Unsigned(count) < nbyte && x > 0;
    }

    // A round of writing, and the test for another.
    method WriteRound(abuf: array<byte>, buf: array<byte>, apos: nat, count0: int, bufSt: int, nbyte: nat,
                      ghost t: Transfer, ghost g: Patience, ghost b: nat, ghost was: seq<byte>)
      returns (count: int, x: int, more: bool, fault: bool, ghost refused: bool)
      requires buf != device && abuf != device && abuf != buf && abuf.Length == t.size && 0 < t.n == nbyte <= buf.Length
      requires WriteGoing(t, g, b, buf, was, count0, bufSt) && apos == At(t, b)
      modifies this`good, abuf, device
      ensures fault ==> Overrun(t) && g != Some(0) && WrittenSoFar(buf, was, 0)
      ensures !fault && more ==> WriteGoing(t, g, b + 1, buf, was, count, 0) && count > count0 && x > 0
      ensures !fault && !more ==> WriteStopped(t, g, if x < 0 then b else b + 1, buf, was, count, x, refused)
    {
      count, x, fault, refused := WriteBlock(abuf, buf, apos, count0, bufSt, nbyte, was);
      if !fault && x > 0 {
        LessIs(g, Requests(t, b), if NeedsRead(t, b) then 2 else 1);
        WriteNext(t, g, b, count, x);
      } else {
        WriteEnds(t, g, b, count, x, fault, refused);
      }
      more := !fault && Unsigned(count) < nbyte && x > 0;
    }


    ghost predicate Going(t: Transfer, g: Patience, b: nat, buf: array<byte>, buf0: seq<byte>, device0: seq<byte>,
                          count: int, bufSt: int, doRead: bool)
      requires t.n <= buf.Length == |buf0|
      reads this, buf, device
    {
      if doRead then
        device[..] == device0 && buf[t.n..] == buf0[t.n..] && ReadGoing(t, g, b, buf, buf0, count, bufSt)
      else
        buf[..] == buf0 && WriteGoing(t, g, b, buf, device0, count, bufSt)
    }

    ghost predicate Stopped(t: Transfer, g: Patience, b: nat, buf: array<byte>, buf0: seq<byte>, device0: seq<byte>,
                            count: int, x: int, doRead: bool, refused: bool)
      requires t.n <= buf.Length == |buf0|
      reads this`pos, buf, device
    {
      if doRead then
        device[..] == device0 && buf[t.n..] == buf0[t.n..] && ReadStopped(t, g, buf, buf0, count, x)
      else
        buf[..] == buf0 && WriteStopped(t, g, b, buf, device0, count, x, refused)
    }

    // One round of balign_io's loop, and the test for another.
    method Round(abuf: array<byte>, buf: array<byte>, apos: nat, count0: int, bufSt: int, nbyte: nat, doRead: bool,
                 ghost t: Transfer, ghost g: Patience, ghost b0: nat, ghost buf0: seq<byte>, ghost device0: seq<byte>)
      returns (count: int, x: int, more: bool, fault: bool, ghost b: nat, ghost refused: bool)
      requires buf != device && abuf != device && abuf != buf && abuf.Length == t.size
      requires 0 < t.n == nbyte <= buf.Length == |buf0|
      requires Going(t, g, b0, buf, buf0, device0, count0, bufSt, doRead) && apos == At(t, b0)
      modifies this`good, abuf, buf, device
      ensures fault ==> Overrun(t) && g != Some(0) && device[..] == device0
      ensures fault ==> if doRead then buf[nbyte..] == buf0[nbyte..] else buf[..] == buf0
      ensures !fault && more ==>
                && Going(t, g, b, buf, buf0, device0, count, 0, doRead) && apos + abuf.Length == At(t, b)
                && count > count0
      ensures !fault && !more ==> Stopped(t, g, b, buf, buf0, device0, count, x, doRead, refused)
    {
      refused := false;
      if doRead {
        count, x, more, fault := ReadRound(abuf, buf, apos, count0, bufSt, nbyte, t, g, b0, buf0);
      } else {
        count, x, more, fault, refused := WriteRound(abuf, buf, apos, count0, bufSt, nbyte, t, g, b0, device0);
      }
      b := if x < 0 then b0 else b0 + 1;
      if more {
        AtNext(t, b0);
      }
    }

    // The loop of balign_io.
    method Rounds(abuf: array<byte>, buf: array<byte>, nbyte: nat, doRead: bool, k: nat)
      returns (count: int, x: int, fault: bool, ghost b: nat, ghost refused: bool)
      requires buf != device && abuf != device && abuf != buf && abuf.Length == Pow2(k)
      requires 0 < nbyte <= buf.Length && nbyte + Pow2(k) <= INT_MAX
      modifies this`good, abuf, buf, device
      ensures fault ==> Overrun(InBlocks(pos, nbyte, k, device.Length)) && old(good) != Some(0)
      ensures fault ==>
                && device[..] == old(device[..])
                && if doRead then buf[nbyte..] == old(buf[nbyte..]) else buf[..] == old(buf[..])
      ensures !fault ==> Stopped(InBlocks(pos, nbyte, k, device.Length), old(good), b, buf, old(buf[..]),
                                 old(device[..]), count, x, doRead, refused)
    {
      ghost var t, g := InBlocks(pos, nbyte, k, device.Length), good;
      ghost var buf0, device0 := buf[..], device[..];
      var apos: nat := ClearLow(pos, k);
      count := apos - pos;
      var bufSt := -count;
      var more := true;
      x, fault, b, refused := 0, false, 0, false;
      while more
        invariant !fault && t == InBlocks(pos, nbyte, k, device.Length)
        invariant if more then Going(t, g, b, buf, buf0, device0, count, bufSt, doRead) && apos == At(t, b)
                  else Stopped(t, g, b, buf, buf0, device0, count, x, doRead, refused)
        decreases if more then 1 + nbyte - count else 0
      {
        count, x, more, fault, b, refused := Round(abuf, buf, apos, count, bufSt, nbyte, doRead,
                                                   t, g, b, buf0, device0);
        if fault {
          return;
        }
        bufSt := 0;
        apos := apos + abuf.Length;
      }
    }

    // balign_io, for blocks of 2^k bytes and a server that fails the request its patience says.  It
    // behaves as if the device could be read and written byte by byte up to that request, except when
    // it reads beyond the end from a position where no block begins.  A refused write is counted.
    method BalignIo(buf: array<byte>, nbyte: nat, doRead: bool, k: nat)
      returns (x: int, fault: bool, ghost b: nat, ghost failed: bool, ghost refused: bool)
      requires buf != device && 0 < nbyte <= buf.Length && nbyte + Pow2(k) <= INT_MAX
      modifies this, device, buf
      ensures fault <==> Overrun(InBlocks(old(pos), nbyte, k, device.Length)) && old(good) != Some(0)
      ensures !fault ==> pos == old(pos) + Most(0, x)
      ensures doRead ==> device[..] == old(device[..]) && buf[nbyte..] == old(buf[nbyte..])
      ensures doRead && !fault ==>
                var t := InBlocks(old(pos), nbyte, k, device.Length);
                x == if Beyond(t) then (if old(good) == Some(0) then -1 else nbyte)
                     else if ReadCount(t, old(good)) > 0 then ReadCount(t, old(good))
                     else if ReadFails(t, old(good)) then -1 else 0
      ensures doRead && !fault && (x <= 0 || !Beyond(InBlocks(old(pos), nbyte, k, device.Length))) ==>
                forall i | 0 <= i < buf.Length :: buf[i] == if i < x then device[old(pos) + i] else old(buf[i])
      ensures !doRead ==> buf[..] == old(buf[..]) && (fault ==> device[..] == old(device[..]))
      ensures !doRead && !fault ==>
                var t := InBlocks(old(pos), nbyte, k, device.Length);
                && WriteStops(t, old(good), b, failed, refused)
                && x == (if WriteCount(t, b, refused) > 0 then WriteCount(t, b, refused) else -1)
                && forall i | 0 <= i < device.Length ::
                     device[i] == if t.p <= i < t.p + Before(t, b) then buf[i - t.p] else old(device[i])
    {
      var abuf := new byte[Pow2(k)];
      var count;
      count, x, fault, b, refused := Rounds(abuf, buf, nbyte, doRead, k);
      failed := x < 0;
      if fault {
        return;
      }
      if count < 0 {
        count := 0;
      }
      pos := pos + count;
      if count > 0 {
        x := count;
      }
    }
  }
}
