/** The memory allocator (src/libc/malloc.c): blocks of powers of two carved from pages
  and kept on free chains whose links are stored in the free blocks themselves, and
  larger blocks that get pages of their own.

  Addresses are integers and memory is a map from mapped addresses to cells.  A link
  occupies four cells; anything stored over one of them destroys it. */
module Malloc {
  import opened PowersOfTwo
  import opened Sets

  const NBPG := 4096
  const MINPG := 16   // pages in the first run
  const MAXPG := 256  // and in the longest
  const MIN_BUCKET := 4
  const MAX_BUCKET := 15
  const USHORT_RANGE := 65536

  datatype Cell = Byte(b: int) | Link(p: int) | Part

  type ushort = x: nat | x < USHORT_RANGE

  // A chunk of pages: a page for its description, then len pages of data, each with a
  // 16-bit tag.
  datatype Chunk = Chunk(vaddr: int, len: nat, perpage: seq<ushort>)

  function ZeroAt(a: int): (r: Cell) {
    Byte(0)
  }

  type Memory = map<int, Cell>

  function End(c: Chunk): (r: int) {
    c.vaddr + Ptob(c.len)
  }

  // pages needed for a number of bytes
  function Btorp(n: nat): (r: nat) {
    (n + 4095) / 4096
  }

  // bytes in a number of pages
  function Ptob(n: nat): (r: nat) {
    n * 4096
  }

  predicate Apart(lo1: int, hi1: int, lo2: int, hi2: int) {
    hi1 <= lo2 || hi2 <= lo1
  }

  predicate Holds(c: Chunk, lo: int, hi: int) {
    c.vaddr <= lo && hi <= End(c)
  }

  predicate PageAligned(a: int) {
    a % 4096 == 0
  }

  function Tag(c: Chunk, a: int): (r: ushort)
    requires Holds(c, a, a + 1) && |c.perpage| == c.len
  {
    c.perpage[(a - c.vaddr) / 4096]
  }

  // ---- What holds of the chunks ----

  ghost predicate ChunkOk(c: Chunk, mem: Memory) {
    && c.vaddr > NBPG && PageAligned(c.vaddr)
    && |c.perpage| == c.len
    && forall a | c.vaddr - NBPG <= a < End(c) :: a in mem
  }

  predicate ChunksApart(c: Chunk, d: Chunk) {
    Apart(c.vaddr - NBPG, End(c), d.vaddr - NBPG, End(d))
  }

  ghost predicate ChunksOk(cs: set<Chunk>, mem: Memory) {
    && (forall c {:trigger ChunkOk(c, mem)} | c in cs :: ChunkOk(c, mem))
    && (forall c, d {:trigger ChunksApart(c, d)} | c in cs && d in cs && c != d :: ChunksApart(c, d))
  }

  // The list has each chunk of the set once.
  ghost predicate Lists(chunks: seq<Chunk>, cs: set<Chunk>) {
    && (forall c :: c in chunks <==> c in cs)
    && (forall i, j | 0 <= i < j < |chunks| :: chunks[i] != chunks[j])
  }

  // ---- What holds of the blocks ----

  // The tag of a block's first page gives its size.
  predicate TagGives(c: Chunk, p: int, n: nat)
    requires Holds(c, p, p + 1) && |c.perpage| == c.len
  {
    var t := Tag(c, p);
    if t <= MAX_BUCKET then MIN_BUCKET <= t && n == Pow2(t)
    else p == c.vaddr && n == Ptob(c.len) && t == c.len + MAX_BUCKET
  }

  ghost predicate BlockIn(c: Chunk, p: int, n: nat) {
    n >= 1 && Holds(c, p, p + n) && |c.perpage| == c.len && TagGives(c, p, n)
  }

  ghost predicate Placed(cs: set<Chunk>, p: int, n: nat) {
    exists c | c in cs :: BlockIn(c, p, n)
  }

  predicate BlocksApart(blocks: map<int, nat>, p: int, q: int)
    requires p in blocks && q in blocks
  {
    Apart(p, p + blocks[p], q, q + blocks[q])
  }

  // Block p has nothing from lo to hi.
  predicate Clear(blocks: map<int, nat>, p: int, lo: int, hi: int)
    requires p in blocks
  {
    Apart(p, p + blocks[p], lo, hi)
  }

  ghost predicate BlocksOk(cs: set<Chunk>, blocks: map<int, nat>) {
    && (forall p {:trigger Placed(cs, p, blocks[p])} | p in blocks :: Placed(cs, p, blocks[p]))
    && (forall p, q {:trigger BlocksApart(blocks, p, q)} | p in blocks && q in blocks && p != q ::
          BlocksApart(blocks, p, q))
  }

  // Whole pages from lo to hi that belong to no block.
  ghost predicate Unused(cs: set<Chunk>, blocks: map<int, nat>, lo: int, hi: int) {
    lo < hi ==>
      && (exists c | c in cs :: Holds(c, lo, hi))
      && (forall p {:trigger Clear(blocks, p, lo, hi)} | p in blocks :: Clear(blocks, p, lo, hi))
  }

  // ---- What holds of the free chains ----

  // Following links from `head` visits exactly the blocks of the chain and ends in null.
  predicate Chained(mem: Memory, head: int, chain: seq<int>)
    decreases |chain|
  {
    if chain == [] then head == 0
    else
      && head == chain[0] && head != 0
      && head in mem && mem[head].Link?
      && Chained(mem, mem[head].p, chain[1..])
  }

  ghost predicate NoRepeats(chain: seq<int>) {
    forall i, j | 0 <= i < j < |chain| :: chain[i] != chain[j]
  }

  // Every block of the chain is free and has the bucket's size.
  ghost predicate AllFree(chain: seq<int>, k: nat, blocks: map<int, nat>, live: set<int>) {
    forall p | p in chain :: p in blocks && p !in live && blocks[p] == Pow2(k)
  }

  // Bucket k's chain starts where the bucket says, repeats nothing and is all free.
  ghost predicate ChainOk(mem: Memory, bmem: seq<int>, chains: seq<seq<int>>, k: nat, blocks: map<int, nat>,
                          live: set<int>)
    requires k < |bmem| == |chains|
  {
    Chained(mem, bmem[k], chains[k]) && NoRepeats(chains[k]) && AllFree(chains[k], k, blocks, live)
  }

  ghost predicate ChainsOk(mem: Memory, bmem: seq<int>, chains: seq<seq<int>>, blocks: map<int, nat>, live: set<int>) {
    && |bmem| == |chains| == MAX_BUCKET + 1
    && (forall k {:trigger ChainOk(mem, bmem, chains, k, blocks, live)} | 0 <= k < |chains| ::
          ChainOk(mem, bmem, chains, k, blocks, live))
  }

  ghost predicate OnSomeChain(chains: seq<seq<int>>, p: int) {
    exists k | 0 <= k < |chains| :: p in chains[k]
  }

  // Live blocks are blocks, and every other block is on a chain.
  ghost predicate Accounted(blocks: map<int, nat>, live: set<int>, chains: seq<seq<int>>) {
    && live <= blocks.Keys
    && forall p {:trigger OnSomeChain(chains, p)} | p in blocks && p !in live :: OnSomeChain(chains, p)
  }

  // Everything but the pages in hand.
  ghost predicate CoreOk(chunks: seq<Chunk>, cs: set<Chunk>, mem: Memory, bmem: seq<int>,
                         blocks: map<int, nat>, live: set<int>, chains: seq<seq<int>>) {
    && Lists(chunks, cs)
    && ChunksOk(cs, mem)
    && BlocksOk(cs, blocks)
    && ChainsOk(mem, bmem, chains, blocks, live)
    && Accounted(blocks, live, chains)
  }

  // The cells from p up to p + n are mapped and the same in both.
  ghost predicate SameCells(mem: Memory, mem': Memory, p: int, n: int) {
    forall a | p <= a < p + n :: a in mem && a in mem' && mem'[a] == mem[a]
  }

  // n cells at base and no others have been mapped.
  ghost predicate MappedMore(was: Memory, now: Memory, base: int, n: int) {
    forall a :: a in now <==> a in was || base <= a < base + n
  }

  // n cells at base and no others have been unmapped.
  ghost predicate MappedLess(was: Memory, now: Memory, base: int, n: int) {
    forall a :: a in now <==> a in was && !(base <= a < base + n)
  }

  // The m blocks of n bytes at p, the last one first.
  function BlocksAt(p: int, n: nat, m: nat): (chain: seq<int>)
    ensures |chain| == m
    ensures m > 0 ==> chain[0] == p + Times(m - 1, n)
  {
    if m == 0 then [] else [p + Times(m - 1, n)] + BlocksAt(p, n, m - 1)
  }

  // The n cells at `to` are what those at `from` were.
  ghost predicate Carried(was: Memory, now: Memory, from: int, to: int, n: nat) {
    forall a | to <= a < to + n :: a in now && from + (a - to) in was && now[a] == was[from + (a - to)]
  }

  function Copied(mem: Memory, from: int, to: int, n: nat): (mem': Memory)
    requires forall a | from <= a < from + n :: a in mem
    requires forall a | to <= a < to + n :: a in mem
    ensures Carried(mem, mem', from, to, n)
    ensures mem'.Keys == mem.Keys && forall a | a in mem && !(to <= a < to + n) :: mem'[a] == mem[a]
  {
    map a | a in mem :: if to <= a < to + n then mem[from + (a - to)] else mem[a]
  }

  // The block sizes malloc hands out: the least power of two that is at least 16 and the
  // request, or whole pages.
  ghost predicate RightSize(size: nat, n: nat) {
    if size > 32768 then n == Ptob(Btorp(size))
    else exists k :: IsBucket(size, k) && n == Pow2(k)
  }

  lemma FewerBlocks(cs: set<Chunk>, blocks: map<int, nat>, f: int)
    requires BlocksOk(cs, blocks)
    ensures BlocksOk(cs, blocks - {f})
  {
    var held := blocks - {f};
    forall p | p in held ensures Placed(cs, p, held[p]) {
      assert Placed(cs, p, blocks[p]);
    }
    forall p, q | p in held && q in held && p != q ensures BlocksApart(held, p, q) {
      assert BlocksApart(blocks, p, q);
    }
  }

  // The bucket for a request.
  ghost predicate IsBucket(size: nat, k: nat) {
    MIN_BUCKET <= k <= MAX_BUCKET && size <= Pow2(k) && (k == MIN_BUCKET || Pow2(k - 1) < size)
  }

  // There is one for each request up to 32K.
  lemma OneBucket(size: nat, j: nat, k: nat)
    requires IsBucket(size, j) && IsBucket(size, k)
    ensures j == k
  {
    if j < k {
      Pow2Monotone(j, k - 1);
    } else if k < j {
      Pow2Monotone(k, j - 1);
    }
  }

  // ---- Lemmas ----

  lemma {:induction false} ChainedElsewhere(mem: Memory, mem': Memory, head: int, chain: seq<int>)
    requires Chained(mem, head, chain)
    requires forall p | p in chain && p in mem :: p in mem' && mem'[p] == mem[p]
    ensures Chained(mem', head, chain)
    decreases |chain|
  {
    if chain != [] {
      ChainedElsewhere(mem, mem', mem[head].p, chain[1..]);
    }
  }

  // A data address belongs to one chunk only.
  lemma OneHome(cs: set<Chunk>, mem: Memory, c: Chunk, d: Chunk, a: int)
    requires ChunksOk(cs, mem) && c in cs && d in cs
    requires Holds(c, a, a + 1) && Holds(d, a, a + 1)
    ensures c == d
  {
    assert c != d ==> ChunksApart(c, d);
  }

  lemma {:induction false} BoundedAbove(s: set<int>) returns (b: int)
    ensures b >= 0 && forall a | a in s :: a < b
    decreases |s|
  {
    b := 0;
    if |s| > 0 {
      var a := PickOne(s);
      var b' := BoundedAbove(s - {a});
      b := if a < b' then b' else a + 1;
      forall x | x in s ensures x < b {
        assert x == a || x in s - {a};
      }
    } else {
      assert s == {};
    }
  }

  // There is always room for another mapping: the address space is unbounded here.
  predicate Vacant(mem: Memory, base: int, len: nat) {
    base > 0 && PageAligned(base) && forall a | base <= a < base + len :: a !in mem
  }

  lemma SomewhereVacant(mem: Memory, len: nat)
    ensures exists base :: Vacant(mem, base, len)
  {
    var b := BoundedAbove(mem.Keys);
    assert Vacant(mem, Ptob(b + 1), len);
  }

  // What a mapped chunk or block occupies lies outside a vacant range.
  lemma ChunkAvoidsVacant(c: Chunk, mem: Memory, base: int, len: nat)
    requires ChunkOk(c, mem) && Vacant(mem, base, len) && len > 0
    ensures Apart(c.vaddr - NBPG, End(c), base, base + len)
  {
    assert c.vaddr - NBPG in mem;
    assert c.vaddr - NBPG < base < End(c) ==> base in mem;
  }

  // A block or an unused range lies inside a chunk, so it avoids what is vacant.
  lemma HeldAvoidsVacant(c: Chunk, mem: Memory, lo: int, hi: int, base: int, len: nat)
    requires ChunkOk(c, mem) && Vacant(mem, base, len) && len > 0 && Holds(c, lo, hi)
    ensures Apart(lo, hi, base, base + len)
  {
    ChunkAvoidsVacant(c, mem, base, len);
  }

  // A new chunk, in newly mapped memory, goes in front of the others.
  ghost predicate NewChunk(c: Chunk, cs: set<Chunk>, mem: Memory) {
    && ChunksOk(cs, mem)
    && |c.perpage| == c.len && c.vaddr > NBPG && PageAligned(c.vaddr)
    && Vacant(mem, c.vaddr - NBPG, Ptob(c.len + 1))
  }

  lemma AddChunk(c: Chunk, cs: set<Chunk>, mem: Memory, mem': Memory)
    requires NewChunk(c, cs, mem)
    requires forall a | a in mem :: a in mem'
    requires forall a | c.vaddr - NBPG <= a < End(c) :: a in mem'
    ensures ChunksOk(cs + {c}, mem') && c !in cs
  {
    forall d | d in cs ensures ChunkOk(d, mem') && ChunksApart(c, d) && ChunksApart(d, c) {
      assert ChunkOk(d, mem);
      ChunkAvoidsVacant(d, mem, c.vaddr - NBPG, Ptob(c.len + 1));
    }
  }

  lemma AddChunkBlock(c: Chunk, cs: set<Chunk>, mem: Memory, p: int, n: nat)
    requires NewChunk(c, cs, mem) && Placed(cs, p, n)
    ensures Placed(cs + {c}, p, n) && Apart(p, p + n, c.vaddr, End(c))
  {
    var d :| d in cs && BlockIn(d, p, n);
    assert d in cs + {c} && ChunkOk(d, mem);
    HeldAvoidsVacant(d, mem, p, p + n, c.vaddr - NBPG, Ptob(c.len + 1));
  }

  lemma AddChunkBlocks(c: Chunk, cs: set<Chunk>, mem: Memory, blocks: map<int, nat>)
    requires NewChunk(c, cs, mem) && BlocksOk(cs, blocks)
    ensures BlocksOk(cs + {c}, blocks)
    ensures Unused(cs + {c}, blocks, c.vaddr, End(c))
  {
    forall p | p in blocks
      ensures Placed(cs + {c}, p, blocks[p]) && Clear(blocks, p, c.vaddr, End(c))
    {
      assert Placed(cs, p, blocks[p]);
      AddChunkBlock(c, cs, mem, p, blocks[p]);
    }
    assert c in cs + {c} && Holds(c, c.vaddr, End(c));
  }

  lemma AddChunkUnused(c: Chunk, cs: set<Chunk>, mem: Memory, blocks: map<int, nat>, lo: int, hi: int)
    requires NewChunk(c, cs, mem) && Unused(cs, blocks, lo, hi)
    ensures Unused(cs + {c}, blocks, lo, hi)
    ensures lo < hi ==> Apart(lo, hi, c.vaddr, End(c))
  {
    if lo < hi {
      var d :| d in cs && Holds(d, lo, hi);
      assert d in cs + {c} && ChunkOk(d, mem);
      HeldAvoidsVacant(d, mem, lo, hi, c.vaddr - NBPG, Ptob(c.len + 1));
    }
  }

  lemma UnusedPart(cs: set<Chunk>, blocks: map<int, nat>, lo: int, hi: int, lo': int, hi': int)
    requires Unused(cs, blocks, lo, hi) && lo <= lo' <= hi' <= hi
    ensures Unused(cs, blocks, lo', hi')
  {
    if lo < hi {
      var c :| c in cs && Holds(c, lo, hi);
      assert Holds(c, lo', hi');
      forall p | p in blocks ensures lo' < hi' ==> Clear(blocks, p, lo', hi') {
        assert Clear(blocks, p, lo, hi);
      }
    }
  }

  // A chunk with another tag for the page at p.
  function Retagged(c: Chunk, p: int, t: ushort): (r: Chunk)
    requires Holds(c, p, p + 1) && |c.perpage| == c.len
  {
    c.(perpage := c.perpage[(p - c.vaddr) / 4096 := t])
  }

  // Tagging a page in hand changes no block's tag.
  lemma Retag(cs: set<Chunk>, mem: Memory, blocks: map<int, nat>, c: Chunk, p: int, hi: int, t: ushort)
    requires ChunksOk(cs, mem) && BlocksOk(cs, blocks) && c in cs
    requires PageAligned(p) && p + NBPG <= hi && Holds(c, p, hi) && |c.perpage| == c.len
    requires forall q | q in blocks :: Clear(blocks, q, p, hi)
    ensures ChunksOk(cs - {c} + {Retagged(c, p, t)}, mem) && BlocksOk(cs - {c} + {Retagged(c, p, t)}, blocks)
  {
    var c' := Retagged(c, p, t);
    var cs' := cs - {c} + {c'};
    assert ChunkOk(c, mem);
    forall d, e | d in cs' && e in cs' && d != e ensures ChunksApart(d, e) {
      var d0, e0 := if d == c' then c else d, if e == c' then c else e;
      assert ChunksApart(d0, e0);
    }
    forall d | d in cs' ensures ChunkOk(d, mem) {
      assert d != c' ==> ChunkOk(d, mem);
    }
    forall q | q in blocks ensures Placed(cs', q, blocks[q]) {
      assert Placed(cs, q, blocks[q]) && Clear(blocks, q, p, hi);
      var d :| d in cs && BlockIn(d, q, blocks[q]);
      if d == c {
        StillIn(c, p, hi, t, q, blocks[q]);
      } else {
        assert d in cs';
      }
    }
  }

  // Only what lies in a page has its index.
  lemma PagesDiffer(x: nat, y: nat)
    requires x % 4096 == 0 && (y < x || x + 4096 <= y)
    ensures y / 4096 != x / 4096
  {
    assert x == 4096 * (x / 4096) && y == 4096 * (y / 4096) + y % 4096;
  }

  lemma StillIn(c: Chunk, p: int, hi: int, t: ushort, q: int, n: nat)
    requires PageAligned(p) && p + NBPG <= hi && Holds(c, p, hi) && |c.perpage| == c.len
    requires PageAligned(c.vaddr) && BlockIn(c, q, n) && Apart(q, q + n, p, hi)
    ensures BlockIn(Retagged(c, p, t), q, n)
  {
    PagesDiffer(p - c.vaddr, q - c.vaddr);
  }

  lemma RetagUnused(cs: set<Chunk>, blocks: map<int, nat>, c: Chunk, c': Chunk, lo: int, hi: int)
    requires Unused(cs, blocks, lo, hi) && c'.vaddr == c.vaddr && c'.len == c.len
    ensures Unused(cs - {c} + {c'}, blocks, lo, hi)
  {
    if lo < hi {
      var d :| d in cs && Holds(d, lo, hi);
      assert d == c ==> Holds(c', lo, hi);
      assert d != c ==> d in cs - {c} + {c'};
    }
  }

  lemma RetagLists(chunks: seq<Chunk>, cs: set<Chunk>, mem: Memory, i: nat, c': Chunk)
    requires Lists(chunks, cs) && ChunksOk(cs, mem) && i < |chunks|
    requires c'.vaddr == chunks[i].vaddr && c'.len == chunks[i].len
    ensures Lists(chunks[i := c'], cs - {chunks[i]} + {c'})
  {
    var all, c := chunks[i := c'], chunks[i];
    assert c in cs && ChunkOk(c, mem);
    forall j | 0 <= j < |chunks| && j != i ensures chunks[j] in cs - {c} && chunks[j] != c' {
      assert chunks[j] in cs && ChunksApart(chunks[j], c);
    }
    assert all[i] == c';
    forall d | d in cs - {c} + {c'} ensures d in all {
      if d != c' {
        var j :| 0 <= j < |chunks| && chunks[j] == d;
        assert all[j] == d;
      }
    }
  }

  // ---- Carving a block out of pages in hand ----

  function WithLink(mem: Memory, q: int, to: int): (mem': Memory)
    ensures q in mem' && mem'[q] == Link(to)
    ensures forall a | a in mem && !(q <= a < q + 4) :: a in mem' && mem'[a] == mem[a]
    ensures forall a | a in mem :: a in mem'
  {
    mem[q := Link(to)][q + 1 := Part][q + 2 := Part][q + 3 := Part]
  }

  // No block begins among the pages in hand.
  lemma ClearOfHand(cs: set<Chunk>, blocks: map<int, nat>, lo: int, hi: int)
    requires BlocksOk(cs, blocks) && Unused(cs, blocks, lo, hi)
    ensures forall p | p in blocks :: !(lo <= p < hi)
  {
    forall p | p in blocks ensures !(lo <= p < hi) {
      assert Placed(cs, p, blocks[p]);
      assert lo < hi ==> Clear(blocks, p, lo, hi);
    }
  }

  lemma CarveBlocks(cs: set<Chunk>, blocks: map<int, nat>, c: Chunk, q: int, n: nat, hi: int)
    requires BlocksOk(cs, blocks) && Unused(cs, blocks, q, hi)
    requires c in cs && BlockIn(c, q, n) && q + n <= hi
    ensures q !in blocks && BlocksOk(cs, blocks[q := n])
  {
    ClearOfHand(cs, blocks, q, hi);
    var blocks' := blocks[q := n];
    forall p | p in blocks' ensures Placed(cs, p, blocks'[p]) {
      assert p != q ==> Placed(cs, p, blocks[p]);
    }
    forall p, r | p in blocks' && r in blocks' && p != r ensures BlocksApart(blocks', p, r) {
      assert p != q ==> Clear(blocks, p, q, hi);
      assert r != q ==> Clear(blocks, r, q, hi);
      assert p != q && r != q ==> BlocksApart(blocks, p, r);
    }
  }

  lemma CarveUnused(cs: set<Chunk>, blocks: map<int, nat>, q: int, n: nat, lo: int, hi: int)
    requires Unused(cs, blocks, lo, hi) && (lo < hi ==> Apart(q, q + n, lo, hi))
    ensures Unused(cs, blocks[q := n], lo, hi)
  {
    var blocks' := blocks[q := n];
    forall p | p in blocks' ensures lo < hi ==> Clear(blocks', p, lo, hi) {
      assert lo < hi && p != q ==> Clear(blocks, p, lo, hi);
    }
  }

  // A new free block goes on the front of its chain.
  lemma PushFree(mem: Memory, bmem: seq<int>, chains: seq<seq<int>>, blocks: map<int, nat>, live: set<int>,
                 blocks': map<int, nat>, live': set<int>, q: int, k: nat)
    requires ChainsOk(mem, bmem, chains, blocks, live) && k <= MAX_BUCKET && q != 0
    requires q in blocks' && blocks'[q] == Pow2(k) && q !in live'
    requires q !in blocks || q in live
    requires forall p | p in blocks && p !in live ::
               p in blocks' && blocks'[p] == blocks[p] && p !in live' && (p < q || q + 4 <= p)
    ensures ChainsOk(WithLink(mem, q, bmem[k]), bmem[k := q], chains[k := [q] + chains[k]], blocks', live')
  {
    var mem', bmem', chains' := WithLink(mem, q, bmem[k]), bmem[k := q], chains[k := [q] + chains[k]];
    forall j | 0 <= j < |chains'|
      ensures ChainOk(mem', bmem', chains', j, blocks', live')
    {
      assert ChainOk(mem, bmem, chains, j, blocks, live);
      ChainedElsewhere(mem, mem', bmem[j], chains[j]);
      assert chains'[k][1..] == chains[k];
    }
  }

  // The first block of a chain is taken off it and handed out.
  lemma PopFree(mem: Memory, bmem: seq<int>, chains: seq<seq<int>>, blocks: map<int, nat>, live: set<int>, k: nat)
    requires ChainsOk(mem, bmem, chains, blocks, live) && Accounted(blocks, live, chains)
    requires k <= MAX_BUCKET && bmem[k] != 0
    ensures bmem[k] in mem && mem[bmem[k]].Link? && chains[k] != []
    ensures bmem[k] in blocks && bmem[k] !in live && blocks[bmem[k]] == Pow2(k)
    ensures ChainsOk(mem, bmem[k := mem[bmem[k]].p], chains[k := chains[k][1..]], blocks, live + {bmem[k]})
    ensures Accounted(blocks, live + {bmem[k]}, chains[k := chains[k][1..]])
  {
    assert ChainOk(mem, bmem, chains, k, blocks, live);
    var f, bmem', chains' := bmem[k], bmem[k := mem[bmem[k]].p], chains[k := chains[k][1..]];
    assert f in chains[k];
    forall j | 0 <= j < |chains'|
      ensures ChainOk(mem, bmem', chains', j, blocks, live + {f})
    {
      assert ChainOk(mem, bmem, chains, j, blocks, live);
      Pow2Injective(j, k);
    }
    forall p | p in blocks && p !in live + {f} ensures OnSomeChain(chains', p) {
      assert OnSomeChain(chains, p);
      var j :| 0 <= j < |chains| && p in chains[j];
      assert p in chains'[j];
    }
  }

  // Chains do not depend on blocks other than their own.
  lemma ChainsAside(mem: Memory, mem': Memory, bmem: seq<int>, chains: seq<seq<int>>, blocks: map<int, nat>,
                    live: set<int>, blocks': map<int, nat>, live': set<int>)
    requires ChainsOk(mem, bmem, chains, blocks, live)
    requires forall p | p in blocks && p !in live :: p in blocks' && blocks'[p] == blocks[p] && p !in live'
    requires forall p | p in blocks && p !in live && p in mem :: p in mem' && mem'[p] == mem[p]
    ensures ChainsOk(mem', bmem, chains, blocks', live')
  {
    forall k | 0 <= k < |chains| ensures ChainOk(mem', bmem, chains, k, blocks', live') {
      assert ChainOk(mem, bmem, chains, k, blocks, live);
      ChainedElsewhere(mem, mem', bmem[k], chains[k]);
    }
  }

  lemma AccountedAside(blocks: map<int, nat>, live: set<int>, chains: seq<seq<int>>, blocks': map<int, nat>,
                       live': set<int>)
    requires Accounted(blocks, live, chains) && live' <= blocks'.Keys
    requires forall p | p in blocks' && p !in live' :: p in blocks && p !in live
    ensures Accounted(blocks', live', chains)
  {
    forall p | p in blocks' && p !in live' ensures OnSomeChain(chains, p) {
      assert p in blocks && p !in live;
    }
  }

  // A large request's page count fits the 16-bit tag.
  predicate TagFits(size: nat) {
    size <= 32768 || Btorp(size) + MAX_BUCKET < USHORT_RANGE
  }

  // The tag fits exactly up to 65520 pages.
  lemma TagLimit(size: nat)
    ensures TagFits(size) <==> size <= 268369920
  {
  }

  // When it does not fit, the truncated tag gives no chunk that holds the block.
  lemma TruncatedTag(cs: set<Chunk>, mem: Memory, c: Chunk, size: nat)
    requires ChunksOk(cs, mem) && c in cs && !TagFits(size)
    requires Holds(c, c.vaddr, c.vaddr + 1) && |c.perpage| == c.len
    requires c.len == Btorp(size) && Tag(c, c.vaddr) == (Btorp(size) + MAX_BUCKET) % USHORT_RANGE
    ensures !Placed(cs, c.vaddr, Ptob(c.len))
  {
    forall d | d in cs ensures !BlockIn(d, c.vaddr, Ptob(c.len)) {
      if Holds(d, c.vaddr, c.vaddr + 1) {
        OneHome(cs, mem, c, d, c.vaddr);
        if Tag(c, c.vaddr) <= MAX_BUCKET {
          Pow2Monotone(Tag(c, c.vaddr), MAX_BUCKET);
          assert Pow2(MAX_BUCKET) == 32768;
        }
      }
    }
  }

  lemma BucketBounds()
    ensures Pow2(MIN_BUCKET) == 16 && Pow2(MAX_BUCKET) == 32768
  {
  }

  lemma AtLeast16(k: nat)
    requires MIN_BUCKET <= k
    ensures Pow2(k) >= 16
  {
    BucketBounds();
    Pow2Monotone(MIN_BUCKET, k);
  }

  lemma LargePages(size: nat)
    requires size > 32768
    ensures Btorp(size) >= 9 && size <= Ptob(Btorp(size)) && RightSize(size, Ptob(Btorp(size)))
  {
    BucketBounds();
  }

  // size & mask, for a mask of one bit
  predicate HasBit(size: nat, mask: nat)
    requires mask > 0
  {
    size / mask % 2 == 1
  }

  // size & (mask - 1)
  predicate HasLowerBits(size: nat, mask: nat)
    requires mask > 0
  {
    size % mask != 0
  }

  lemma TopBit(size: nat, mask: nat)
    requires 0 < mask && size < 2 * mask
    ensures HasBit(size, mask) <==> size >= mask
    ensures size >= mask ==> (HasLowerBits(size, mask) <==> size > mask)
  {
    assert size / mask == if size < mask then 0 else 1;
    assert size % mask == if size < mask then size else size - mask;
  }

  lemma HalfMask(k: nat, mask: nat)
    requires k > 0 && mask == Pow2(k)
    ensures mask / 2 == Pow2(k - 1) && mask == 2 * (mask / 2)
  {
  }

  // ---- Giving a chunk back ----

  lemma ListsWithout(chunks: seq<Chunk>, cs: set<Chunk>, i: nat)
    requires Lists(chunks, cs) && i < |chunks|
    ensures Lists(chunks[..i] + chunks[i + 1..], cs - {chunks[i]})
  {
    var all, c := chunks[..i] + chunks[i + 1..], chunks[i];
    forall d | d in cs - {c} ensures d in all {
      var j :| 0 <= j < |chunks| && chunks[j] == d;
      assert d == if j < i then all[j] else all[j - 1];
    }
    forall j | 0 <= j < |all| ensures all[j] in cs - {c} {
      assert all[j] == if j < i then chunks[j] else chunks[j + 1];
    }
  }

  function Unmapped(mem: Memory, lo: int, hi: int): (r: Memory) {
    map a | a in mem && !(lo <= a < hi) :: mem[a]
  }

  // What stays when the chunk of a large block is unmapped.
  lemma WithoutChunk(cs: set<Chunk>, mem: Memory, blocks: map<int, nat>, c: Chunk, p: int)
    requires ChunksOk(cs, mem) && BlocksOk(cs, blocks) && c in cs
    requires p in blocks && p == c.vaddr && blocks[p] == Ptob(c.len) > 0
    ensures ChunksOk(cs - {c}, Unmapped(mem, c.vaddr - NBPG, End(c)))
    ensures BlocksOk(cs - {c}, blocks - {p})
    ensures forall q | q in blocks && q != p ::
              SameCells(mem, Unmapped(mem, c.vaddr - NBPG, End(c)), q, blocks[q])
  {
    var mem', blocks' := Unmapped(mem, c.vaddr - NBPG, End(c)), blocks - {p};
    forall d | d in cs - {c} ensures ChunkOk(d, mem') {
      assert ChunkOk(d, mem) && ChunksApart(d, c);
    }
    forall d, e | d in cs - {c} && e in cs - {c} && d != e ensures ChunksApart(d, e) {
    }
    forall q | q in blocks'
      ensures Placed(cs - {c}, q, blocks'[q]) && SameCells(mem, mem', q, blocks[q])
    {
      assert Placed(cs, q, blocks[q]) && BlocksApart(blocks, p, q);
      var d :| d in cs && BlockIn(d, q, blocks[q]);
      assert d != c;
      assert ChunksApart(d, c) && d in cs - {c} && ChunkOk(d, mem);
    }
    forall q, r | q in blocks' && r in blocks' && q != r ensures BlocksApart(blocks', q, r) {
      assert BlocksApart(blocks, q, r);
    }
  }

  lemma UnusedWithout(cs: set<Chunk>, blocks: map<int, nat>, c: Chunk, p: int, lo: int, hi: int)
    requires Unused(cs, blocks, lo, hi) && p in blocks && p == c.vaddr && blocks[p] == Ptob(c.len)
    ensures Unused(cs - {c}, blocks - {p}, lo, hi)
  {
    if lo < hi {
      var d :| d in cs && Holds(d, lo, hi);
      assert Clear(blocks, p, lo, hi);
      assert d in cs - {c};
      forall q | q in blocks - {p} ensures Clear(blocks - {p}, q, lo, hi) {
        assert Clear(blocks, q, lo, hi);
      }
    }
  }

  lemma Pow2Injective(j: nat, k: nat)
    ensures Pow2(j) == Pow2(k) ==> j == k
  {
    if j < k {
      Pow2Monotone(j + 1, k);
    } else if k < j {
      Pow2Monotone(k + 1, j);
    }
  }

  lemma StillAccounted(blocks: map<int, nat>, live: set<int>, chains: seq<seq<int>>, k: nat, q: int, n: nat)
    requires Accounted(blocks, live, chains) && k < |chains|
    ensures Accounted(blocks[q := n], live - {q}, chains[k := [q] + chains[k]])
  {
    var chains' := chains[k := [q] + chains[k]];
    forall p | p in blocks[q := n] && p !in live - {q} ensures OnSomeChain(chains', p) {
      if p == q {
        assert q in chains'[k];
      } else {
        assert OnSomeChain(chains, p);
        var j :| 0 <= j < |chains| && p in chains[j];
        assert p in chains'[j];
      }
    }
  }

  lemma StillMapped(cs: set<Chunk>, mem: Memory, mem': Memory)
    requires ChunksOk(cs, mem) && forall a | a in mem :: a in mem'
    ensures ChunksOk(cs, mem')
  {
    forall c | c in cs ensures ChunkOk(c, mem') {
      assert ChunkOk(c, mem);
    }
  }

  // The cells from p up to p + n are mapped.
  ghost predicate BlockMapped(mem: Memory, p: int, n: nat) {
    forall a | p <= a < p + n :: a in mem
  }

  lemma SameHeader(cs: set<Chunk>, mem: Memory, c: Chunk, d: Chunk)
    requires ChunksOk(cs, mem) && c in cs && d in cs && c.vaddr == d.vaddr
    ensures c == d
  {
    assert ChunkOk(c, mem) && ChunkOk(d, mem);
    assert c == d || ChunksApart(c, d);
  }

  lemma OneMapped(cs: set<Chunk>, mem: Memory, blocks: map<int, nat>, p: int)
    requires ChunksOk(cs, mem) && BlocksOk(cs, blocks) && p in blocks
    ensures BlockMapped(mem, p, blocks[p])
  {
    assert Placed(cs, p, blocks[p]);
    var c :| c in cs && BlockIn(c, p, blocks[p]);
    assert ChunkOk(c, mem);
  }

  lemma BlocksMapped(cs: set<Chunk>, mem: Memory, blocks: map<int, nat>)
    requires ChunksOk(cs, mem) && BlocksOk(cs, blocks)
    ensures forall p | p in blocks :: BlockMapped(mem, p, blocks[p])
  {
    forall p | p in blocks ensures BlockMapped(mem, p, blocks[p]) {
      OneMapped(cs, mem, blocks, p);
    }
  }

  // Blocks keep their contents when only cells of pages in hand change.
  lemma CellsKept(was: Memory, now: Memory, blocks: map<int, nat>, lo: int, hi: int)
    requires forall p | p in blocks :: BlockMapped(was, p, blocks[p]) && Clear(blocks, p, lo, hi)
    requires forall a | a in was && !(lo <= a < hi) :: a in now && now[a] == was[a]
    ensures forall p | p in blocks :: SameCells(was, now, p, blocks[p])
  {
    forall p | p in blocks ensures SameCells(was, now, p, blocks[p]) {
      assert BlockMapped(was, p, blocks[p]) && Clear(blocks, p, lo, hi);
    }
  }

  // How many pages a bucket's blocks come from: one page, or as many as one block fills.
  lemma BucketPages(k: nat) returns (m: nat)
    requires MIN_BUCKET <= k <= MAX_BUCKET
    ensures var pgs := Btorp(Pow2(k));
            && 1 <= pgs <= 8 && Ptob(pgs) == Times(m, Pow2(k))
            && (pgs > 1 ==> Ptob(pgs) == Pow2(k))
            && Pow2(k) <= Ptob(pgs)
  {
    assert Pow2(4) == 16 && Pow2(5) == 32 && Pow2(6) == 64 && Pow2(7) == 128 && Pow2(8) == 256 && Pow2(9) == 512;
    assert Pow2(10) == 1024 && Pow2(11) == 2048 && Pow2(12) == 4096 && Pow2(13) == 8192;
    assert Pow2(14) == 16384 && Pow2(15) == 32768;
    m := [256, 128, 64, 32, 16, 8, 4, 2, 1, 1, 1, 1][k - 4];
    TimesIsProduct(m, Pow2(k));
  }

  // Blocks parcelled out of one page share its tag.
  lemma SamePage(c: Chunk, p: int, x: nat, pgs: nat, k: nat)
    requires PageAligned(c.vaddr) && PageAligned(p) && Holds(c, p, p + Ptob(pgs)) && |c.perpage| == c.len
    requires 0 < pgs && Tag(c, p) == k && MIN_BUCKET <= k <= MAX_BUCKET
    requires x + Pow2(k) <= Ptob(pgs) && (pgs > 1 ==> x == 0)
    ensures BlockIn(c, p + x, Pow2(k))
  {
    assert (p + x - c.vaddr) / 4096 == (p - c.vaddr) / 4096;
  }

  // m blocks of n bytes
  function Times(m: nat, n: nat): (r: nat) {
    if m == 0 then 0 else n + Times(m - 1, n)
  }

  // While not all blocks are done there is room for one more.
  lemma {:induction false} OneMore(i: nat, m: nat, n: nat)
    requires Times(i, n) < Times(m, n)
    ensures i < m && Times(i + 1, n) == Times(i, n) + n <= Times(m, n)
    decreases i
  {
    if i > 0 {
      OneMore(i - 1, m - 1, n);
    }
  }

  // The next block that a bucket's pages are cut into.
  lemma NextBlock(c: Chunk, p: int, i: nat, total: nat, pgs: nat, k: nat)
    requires PageAligned(c.vaddr) && PageAligned(p) && Holds(c, p, p + Ptob(pgs)) && |c.perpage| == c.len
    requires 0 < pgs && Tag(c, p) == k && MIN_BUCKET <= k <= MAX_BUCKET
    requires Times(i, Pow2(k)) < Ptob(pgs) == Times(total, Pow2(k)) && (pgs > 1 ==> Ptob(pgs) == Pow2(k))
    ensures i < total && Times(i + 1, Pow2(k)) == Times(i, Pow2(k)) + Pow2(k) <= Ptob(pgs)
    ensures BlockIn(c, p + Times(i, Pow2(k)), Pow2(k))
  {
    OneMore(i, total, Pow2(k));
    SamePage(c, p, Times(i, Pow2(k)), pgs, k);
  }

  lemma {:induction false} AllOf(i: nat, m: nat, n: nat)
    requires i <= m && n > 0 && Times(i, n) >= Times(m, n)
    ensures i == m
  {
    if i > 0 {
      AllOf(i - 1, m - 1, n);
    }
  }

  lemma {:induction false} TimesIsProduct(m: nat, n: nat)
    ensures Times(m, n) == m * n
  {
    if m > 0 {
      TimesIsProduct(m - 1, n);
      assert m * n == (m - 1) * n + n;
    }
  }

  lemma ListsFront(c: Chunk, chunks: seq<Chunk>, cs: set<Chunk>)
    requires Lists(chunks, cs) && c !in cs
    ensures Lists([c] + chunks, cs + {c})
  {
    var all := [c] + chunks;
    forall i, j | 0 <= i < j < |all| ensures all[i] != all[j] {
      assert all[j] == chunks[j - 1] && chunks[j - 1] in cs;
    }
  }

  class Allocator {
    var mem: Memory
    var chunks: seq<Chunk>    // most recent first
    var bmem: seq<int>        // first block of each bucket's free chain, or 0
    var freemem: int
    var freepgs: nat
    var allocsz: nat
    ghost var cs: set<Chunk>          // the chunks of the list
    ghost var blocks: map<int, nat>   // every block, live or free, and its size
    ghost var live: set<int>          // blocks handed out and not yet freed
    ghost var chains: seq<seq<int>>   // the free chains

    ghost predicate Core()
      reads this
    {
      CoreOk(chunks, cs, mem, bmem, blocks, live, chains)
    }

    // The pages that alloc_pages has in hand.
    ghost predicate Pool()
      reads this
    {
      && PageAligned(freemem)
      && Unused(cs, blocks, freemem, freemem + Ptob(freepgs))
      && allocsz in {16, 32, 64, 128, 256}
    }

    // The allocator's invariant, while the pages from lo to hi are being parcelled out.
    ghost predicate Holding(lo: int, hi: int)
      reads this
    {
      && Core()
      && Pool()
      && Unused(cs, blocks, lo, hi)
      && (lo < hi && freepgs > 0 ==> Apart(lo, hi, freemem, freemem + Ptob(freepgs)))
    }

    ghost predicate Valid()
      reads this
    {
      Holding(0, 0)
    }

    // Live blocks keep clear of each other, of free blocks and of chunk descriptions.
    lemma Separation(p: int)
      requires Valid() && p in live
      ensures forall q | q in blocks && q != p :: Apart(p, p + blocks[p], q, q + blocks[q])
      ensures forall c | c in cs :: Apart(p, p + blocks[p], c.vaddr - NBPG, c.vaddr)
      ensures forall k, q | 0 <= k <= MAX_BUCKET && q in chains[k] :: q in blocks && q != p
    {
      forall q | q in blocks && q != p ensures Apart(p, p + blocks[p], q, q + blocks[q]) {
        assert BlocksApart(blocks, p, q);
      }
      assert Placed(cs, p, blocks[p]);
      var d :| d in cs && BlockIn(d, p, blocks[p]);
      forall c | c in cs ensures Apart(p, p + blocks[p], c.vaddr - NBPG, c.vaddr) {
        assert c != d ==> ChunksApart(c, d);
      }
      forall k, q | 0 <= k <= MAX_BUCKET && q in chains[k] ensures q in blocks && q != p {
        assert ChainOk(mem, bmem, chains, k, blocks, live);
      }
    }

    constructor ()
      ensures Valid() && live == {} && blocks == map[] && mem == map[] && chunks == []
      ensures freepgs == 0 && allocsz == MINPG && forall k | 0 <= k < |bmem| :: bmem[k] == 0
    {
      mem := map[];
      chunks := [];
      bmem := seq(MAX_BUCKET + 1, _ => 0);
      freemem := 0;
      freepgs := 0;
      allocsz := MINPG;
      cs := {};
      blocks := map[];
      live := {};
      chains := seq(MAX_BUCKET + 1, _ => []);
    }

    // mmap: any vacant range may be chosen; it is filled with zeros
    method Mmap(len: nat) returns (base: int)
      modifies this`mem
      ensures Vacant(old(mem), base, len)
      ensures forall a | a in old(mem) :: a in mem && mem[a] == old(mem)[a]
      ensures forall a | base <= a < base + len :: a in mem && mem[a] == Byte(0)
      ensures MappedMore(old(mem), mem, base, len)
    {
      SomewhereVacant(mem, len);
      base :| Vacant(mem, base, len);
      mem := mem + map a | base <= a < base + len :: ZeroAt(a);
    }

    // alloc_core
    method AllocCore(pgs: nat) returns (newmem: int, ghost c: Chunk)
      requires Core()
      modifies this`mem, this`chunks, this`cs
      ensures Core() && NewChunk(c, old(cs), old(mem)) && cs == old(cs) + {c} && c.vaddr == newmem && c.len == pgs
      ensures Unused(cs, blocks, newmem, End(c))
      ensures forall a | a in old(mem) :: a in mem && mem[a] == old(mem)[a]
      ensures MappedMore(old(mem), mem, newmem - NBPG, Ptob(pgs + 1))
    {
      ghost var was := mem;
      var base := Mmap(Ptob(pgs + 1));
      newmem := base + NBPG;
      c := Chunk(newmem, pgs, seq(pgs, _ => 0));
      assert NewChunk(c, cs, was);
      AddChunk(c, cs, was, mem);
      AddChunkBlocks(c, cs, was, blocks);
      ChainsStay(was, mem);
      ListsFront(c, chunks, cs);
      chunks := [Chunk(newmem, pgs, seq(pgs, _ => 0))] + chunks;
      cs := cs + {c};
    }

    // Chains are unharmed while the cells of the free blocks keep their contents.
    lemma ChainsStay(was: Memory, now: Memory)
      requires ChainsOk(was, bmem, chains, blocks, live)
      requires forall p | p in blocks && p !in live && p in was :: p in now && now[p] == was[p]
      ensures ChainsOk(now, bmem, chains, blocks, live)
    {
      forall k | 0 <= k < |chains| ensures ChainOk(now, bmem, chains, k, blocks, live) {
        assert ChainOk(was, bmem, chains, k, blocks, live);
        ChainedElsewhere(was, now, bmem[k], chains[k]);
      }
    }

    // The part of alloc_pages that gets more core; what is left of the current run of
    // pages is lost.
    method MorePages()
      requires Valid()
      modifies this`mem, this`chunks, this`cs, this`freemem, this`freepgs, this`allocsz
      ensures Valid() && freepgs == old(allocsz) >= MINPG
      ensures allocsz == if old(allocsz) < MAXPG then 2 * old(allocsz) else old(allocsz)
      ensures forall a | a in old(mem) :: a in mem && mem[a] == old(mem)[a]
      ensures Vacant(old(mem), freemem - NBPG, Ptob(freepgs + 1))
      ensures MappedMore(old(mem), mem, freemem - NBPG, Ptob(freepgs + 1))
    {
      ghost var c;
      freemem, c := AllocCore(allocsz);
      freepgs := allocsz;
      if allocsz < MAXPG {
        allocsz := 2 * allocsz;
      }
    }

    // The pages at p come off the pool, or if it has too few, off a new run of pages.
    ghost predicate Supplied(p: int, pgs: nat, mem0: Memory, freemem0: int, freepgs0: nat, allocsz0: nat)
      reads this`mem, this`freemem, this`freepgs, this`allocsz
    {
      && freemem == p + Ptob(pgs)
      && if freepgs0 >= pgs then
           p == freemem0 && freepgs == freepgs0 - pgs && allocsz == allocsz0 && MappedMore(mem0, mem, 0, 0)
         else
           && freepgs == allocsz0 - pgs && allocsz == (if allocsz0 < MAXPG then 2 * allocsz0 else allocsz0)
           && Vacant(mem0, p - NBPG, Ptob(allocsz0 + 1)) && MappedMore(mem0, mem, p - NBPG, Ptob(allocsz0 + 1))
    }

    // alloc_pages
    method AllocPages(pgs: nat) returns (p: int)
      requires Valid() && 1 <= pgs <= MINPG
      modifies this`mem, this`chunks, this`cs, this`freemem, this`freepgs, this`allocsz
      ensures PageAligned(p) && Holding(p, p + Ptob(pgs))
      ensures forall a | a in old(mem) :: a in mem && mem[a] == old(mem)[a]
      ensures Supplied(p, pgs, old(mem), old(freemem), old(freepgs), old(allocsz))
    {
      if freepgs < pgs {
        MorePages();
      }
      p := freemem;
      ghost var hi := freemem + Ptob(freepgs);
      assert Unused(cs, blocks, p, hi);
      freemem := freemem + Ptob(pgs);
      freepgs := freepgs - pgs;
      UnusedPart(cs, blocks, p, hi, p, p + Ptob(pgs));
      UnusedPart(cs, blocks, p, hi, freemem, freemem + Ptob(freepgs));
    }

    // find_chunk
    method FindChunk(a: int) returns (i: nat)
      requires exists c :: c in chunks && Holds(c, a, a + 1)
      ensures i < |chunks| && Holds(chunks[i], a, a + 1)
    {
      i := 0;
      while i < |chunks| && !Holds(chunks[i], a, a + 1)
        invariant i <= |chunks| && forall j | 0 <= j < i :: !Holds(chunks[j], a, a + 1)
      {
        i := i + 1;
      }
    }

    // set_size, for pages in hand; the tag is stored in 16 bits
    method SetSize(p: int, size: nat, ghost hi: int, ghost d: Chunk) returns (ghost c: Chunk)
      requires Holding(p, hi) && PageAligned(p) && p + NBPG <= hi && d in cs && Holds(d, p, hi)
      modifies this`chunks, this`cs
      ensures Holding(p, hi)
      ensures c in cs && Holds(c, p, hi) && |c.perpage| == c.len && Tag(c, p) == size % USHORT_RANGE
      ensures c.vaddr == d.vaddr && c.len == d.len
    {
      assert d in chunks;
      var i := FindChunk(p);
      OneHome(cs, mem, d, chunks[i], p);
      assert ChunkOk(d, mem);
      var idx := (p - chunks[i].vaddr) / 4096;
      var c' := chunks[i].(perpage := chunks[i].perpage[idx := size % USHORT_RANGE]);
      Retag(cs, mem, blocks, d, p, hi, size % USHORT_RANGE);
      RetagUnused(cs, blocks, d, c', p, hi);
      RetagUnused(cs, blocks, d, c', freemem, freemem + Ptob(freepgs));
      RetagLists(chunks, cs, mem, i, c');
      chunks := chunks[i := c'];
      cs := cs - {d} + {c'};
      c := c';
    }

    // The chunk that holds block p.
    ghost function Home(p: int): (c: Chunk)
      requires p in blocks && Placed(cs, p, blocks[p])
      reads this`cs, this`blocks
      ensures c in cs && BlockIn(c, p, blocks[p])
    {
      var c :| c in cs && BlockIn(c, p, blocks[p]);
      c
    }

    // The tag of block p's page: its bucket, or its pages and 15 more.
    ghost function PageTag(p: int): (t: nat)
      requires p in blocks && Placed(cs, p, blocks[p])
      reads this`cs, this`blocks
    {
      Tag(Home(p), p)
    }

    // get_size
    method GetSize(p: int) returns (t: nat)
      requires Valid() && p in live
      ensures if t <= MAX_BUCKET then MIN_BUCKET <= t && blocks[p] == Pow2(t)
              else t > MAX_BUCKET && blocks[p] == Ptob(t - MAX_BUCKET)
      ensures t == PageTag(p)
    {
      assert Placed(cs, p, blocks[p]);
      ghost var c :| c in cs && BlockIn(c, p, blocks[p]);
      assert c in chunks;
      var i := FindChunk(p);
      OneHome(cs, mem, c, chunks[i], p);
      OneHome(cs, mem, Home(p), chunks[i], p);
      t := chunks[i].perpage[(p - chunks[i].vaddr) / 4096];
    }

    // The block at q, cut off the pages still in hand.
    lemma CarveHand(q: int, k: nat, hi: int, c: Chunk)
      requires Holding(q, hi) && MIN_BUCKET <= k && q + Pow2(k) <= hi
      requires c in cs && BlockIn(c, q, Pow2(k))
      ensures q > 0 && q !in blocks && BlocksOk(cs, blocks[q := Pow2(k)])
      ensures forall p | p in blocks :: p < q || q + 4 <= p
      ensures Unused(cs, blocks[q := Pow2(k)], freemem, freemem + Ptob(freepgs))
      ensures Unused(cs, blocks[q := Pow2(k)], q + Pow2(k), hi)
    {
      var n := Pow2(k);
      AtLeast16(k);
      ClearOfHand(cs, blocks, q, hi);
      assert forall p | p in blocks :: p < q || q + 4 <= p;
      CarveBlocks(cs, blocks, c, q, n, hi);
      CarveUnused(cs, blocks, q, n, freemem, freemem + Ptob(freepgs));
      UnusedPart(cs, blocks, q, hi, q + n, hi);
      CarveUnused(cs, blocks, q, n, q + n, hi);
      assert ChunkOk(c, mem);
    }

    // The block joins its chain.
    lemma CarveChain(q: int, k: nat)
      requires Core() && k <= MAX_BUCKET && q > 0 && q !in blocks
      requires forall p | p in blocks :: p < q || q + 4 <= p
      ensures ChunksOk(cs, WithLink(mem, q, bmem[k]))
      ensures var blocks', chains' := blocks[q := Pow2(k)], chains[k := [q] + chains[k]];
              && ChainsOk(WithLink(mem, q, bmem[k]), bmem[k := q], chains', blocks', live)
              && Accounted(blocks', live, chains')
    {
      PushFree(mem, bmem, chains, blocks, live, blocks[q := Pow2(k)], live, q, k);
      StillAccounted(blocks, live, chains, k, q, Pow2(k));
      StillMapped(cs, mem, WithLink(mem, q, bmem[k]));
      assert live - {q} == live;
    }

    // One round of malloc's parcelling loop: the block at q joins bucket k's chain.
    method Carve(q: int, k: nat, ghost hi: int, ghost c: Chunk)
      requires Holding(q, hi) && MIN_BUCKET <= k <= MAX_BUCKET && q + Pow2(k) <= hi
      requires c in cs && BlockIn(c, q, Pow2(k))
      modifies this`mem, this`bmem, this`blocks, this`chains
      ensures Holding(q + Pow2(k), hi)
      ensures bmem[k] == q > 0 && blocks == old(blocks)[q := Pow2(k)] && q !in old(blocks)
      ensures forall a | a in old(mem) && !(q <= a < q + 4) :: a in mem && mem[a] == old(mem)[a]
      ensures OnChain(q, k, old(bmem), old(chains)) && MappedMore(old(mem), mem, 0, 0)
    {
      CarveHand(q, k, hi, c);
      CarveChain(q, k);
      AtLeast16(k);
      assert ChunkOk(c, mem);
      mem := WithLink(mem, q, bmem[k]);
      chains := chains[k := [q] + chains[k]];
      bmem := bmem[k := q];
      blocks := blocks[q := Pow2(k)];
    }

    // Nothing but cells from lo to hi has changed.
    ghost predicate OnlyBetween(was: Memory, lo: int, hi: int)
      reads this`mem
    {
      forall a | a in was && !(lo <= a < hi) :: a in mem && mem[a] == was[a]
    }

    ghost predicate HasBlocks(held: map<int, nat>)
      reads this`blocks
    {
      forall q | q in held :: q in blocks && blocks[q] == held[q]
    }

    // The first m blocks at p are bucket k's chain, and there are no other new blocks; nothing has
    // been mapped or unmapped.
    ghost predicate CutUp(p: int, k: nat, m: nat, mem0: Memory, held: map<int, nat>, chains0: seq<seq<int>>)
      requires k < |chains0|
      reads this`chains, this`blocks, this`mem
    {
      && chains == chains0[k := BlocksAt(p, Pow2(k), m)]
      && OnlyNew(held, BlocksAt(p, Pow2(k), m)) && HasBlocks(held) && MappedMore(mem0, mem, 0, 0)
    }

    ghost predicate OnlyNew(held: map<int, nat>, added: seq<int>)
      reads this`blocks
    {
      forall q | q in blocks :: q in held || q in added
    }

    // malloc's parcelling loop
    method Parcel(p: int, pgs: nat, k: nat, ghost c: Chunk, ghost total: nat)
      requires MIN_BUCKET <= k <= MAX_BUCKET && Ptob(pgs) == Times(total, Pow2(k)) && total > 0
      requires 1 <= pgs && (pgs > 1 ==> Ptob(pgs) == Pow2(k)) && PageAligned(p)
      requires Holding(p, p + Ptob(pgs)) && chains[k] == []
      requires c in cs && Holds(c, p, p + Ptob(pgs)) && |c.perpage| == c.len && Tag(c, p) == k
      modifies this`mem, this`bmem, this`blocks, this`chains
      ensures Valid() && bmem[k] != 0
      ensures CutUp(p, k, total, old(mem), old(blocks), old(chains)) && OnlyBetween(old(mem), p, p + Ptob(pgs))
    {
      var x := 0;
      ghost var i, hi, n := 0, p + Ptob(pgs), Pow2(k);
      ghost var mem0, held, chains0 := mem, blocks, chains;
      assert ChunkOk(c, mem);
      assert chains0[k := BlocksAt(p, n, 0)] == chains;
      while x < Ptob(pgs)
        invariant x == Times(i, n) <= Ptob(pgs) && i <= total
        invariant Parcelling(p, k, i, hi, c, mem0, held, chains0)
        decreases total - i
      {
        CarveNext(p, x, pgs, i, total, k, c, mem0, held, chains0);
        x := x + Pow2(k);
        i := i + 1;
      }
      AllOf(i, total, n);
    }

    // The first i blocks have been cut off.
    ghost predicate Parcelling(p: int, k: nat, i: nat, hi: int, c: Chunk, was: Memory, held: map<int, nat>,
                               chains0: seq<seq<int>>)
      requires k < |chains0|
      reads this
    {
      && Holding(p + Times(i, Pow2(k)), hi) && c in cs
      && (i > 0 ==> k < |bmem| && bmem[k] != 0)
      && CutUp(p, k, i, was, held, chains0) && OnlyBetween(was, p, hi)
    }

    method CarveNext(p: int, x: nat, ghost pgs: nat, ghost i: nat, ghost total: nat, k: nat, ghost c: Chunk,
                     ghost was: Memory, ghost held: map<int, nat>, ghost chains0: seq<seq<int>>)
      requires MIN_BUCKET <= k <= MAX_BUCKET && |chains0| == MAX_BUCKET + 1
      requires Parcelling(p, k, i, p + Ptob(pgs), c, was, held, chains0)
      requires PageAligned(c.vaddr) && PageAligned(p) && Holds(c, p, p + Ptob(pgs)) && |c.perpage| == c.len
      requires 0 < pgs && Tag(c, p) == k && (pgs > 1 ==> Ptob(pgs) == Pow2(k))
      requires x == Times(i, Pow2(k)) < Ptob(pgs) == Times(total, Pow2(k))
      modifies this`mem, this`bmem, this`blocks, this`chains
      ensures Parcelling(p, k, i + 1, p + Ptob(pgs), c, was, held, chains0)
      ensures i < total && Times(i + 1, Pow2(k)) == x + Pow2(k) <= Ptob(pgs)
    {
      NextBlock(c, p, i, total, pgs, k);
      AtLeast16(k);
      Carve(p + x, k, p + Ptob(pgs), c);
    }

    // malloc's refill of an empty bucket
    method Refill(k: nat) returns (ghost p: int, ghost m: nat)
      requires Valid() && MIN_BUCKET <= k <= MAX_BUCKET && bmem[k] == 0
      modifies this`mem, this`chunks, this`cs, this`freemem, this`freepgs, this`allocsz
      modifies this`bmem, this`blocks, this`chains
      ensures Valid() && bmem[k] != 0
      ensures HasBlocks(old(blocks)) && Unchanged(old(mem), old(blocks))
      ensures m > 0 && Times(m, Pow2(k)) == Ptob(Btorp(Pow2(k)))
      ensures chains == old(chains)[k := BlocksAt(p, Pow2(k), m)] && OnlyNew(old(blocks), BlocksAt(p, Pow2(k), m))
      ensures Supplied(p, Btorp(Pow2(k)), old(mem), old(freemem), old(freepgs), old(allocsz))
    {
      var pgs := Btorp(Pow2(k));
      m := BucketPages(k);
      BlocksMapped(cs, mem, blocks);
      assert ChainOk(mem, bmem, chains, k, blocks, live);
      assert chains[k] == [];
      var p', c := TaggedPages(pgs, k);
      p := p';
      Parcel(p', pgs, k, c, m);
      CellsKept(old(mem), mem, old(blocks), p, p + Ptob(pgs));
    }

    // Pages for a bucket, tagged with its number.
    method TaggedPages(pgs: nat, k: nat) returns (p: int, ghost c: Chunk)
      requires Valid() && 1 <= pgs <= MINPG && k <= MAX_BUCKET
      modifies this`mem, this`chunks, this`cs, this`freemem, this`freepgs, this`allocsz
      ensures PageAligned(p) && Holding(p, p + Ptob(pgs)) && Unused(cs, blocks, p, p + Ptob(pgs))
      ensures c in cs && Holds(c, p, p + Ptob(pgs)) && |c.perpage| == c.len && Tag(c, p) == k
      ensures forall a | a in old(mem) :: a in mem && mem[a] == old(mem)[a]
      ensures Supplied(p, pgs, old(mem), old(freemem), old(freepgs), old(allocsz))
    {
      p := AllocPages(pgs);
      ghost var d :| d in cs && Holds(d, p, p + Ptob(pgs));
      c := SetSize(p, k, p + Ptob(pgs), d);
    }

    // Everything mapped before is mapped still, with the same contents in every block.
    ghost predicate Unchanged(was: Memory, held: map<int, nat>)
      reads this`mem
    {
      forall p | p in held :: SameCells(was, mem, p, held[p])
    }

    // ---- malloc ----

    // The search for a bucket: from the top, the first bit set in the size, and one more
    // when lower bits are set too.
    method BucketFor(size: nat) returns (bucket: nat)
      requires size <= 32768
      ensures IsBucket(size, bucket)
    {
      BucketBounds();
      if size < 16 {
        return MIN_BUCKET;
      }
      bucket := MAX_BUCKET;
      var mask := 32768;
      TopBit(size, mask);
      while !HasBit(size, mask)
        invariant MIN_BUCKET <= bucket <= MAX_BUCKET && mask == Pow2(bucket)
        invariant 16 <= size < 2 * mask && (HasBit(size, mask) <==> size >= mask)
        decreases bucket
      {
        HalfMask(bucket, mask);
        bucket := bucket - 1;
        mask := mask / 2;
        TopBit(size, mask);
      }
      TopBit(size, mask);
      if HasLowerBits(size, mask) {
        bucket := bucket + 1;
      }
    }

    // Without the live block f, its cells are in hand.
    ghost predicate Aside(f: int)
      requires f in blocks
      reads this
    {
      var held, lo, hi := blocks - {f}, freemem, freemem + Ptob(freepgs);
      && blocks[f] >= 1
      && CoreOk(chunks, cs, mem, bmem, held, live - {f}, chains)
      && PageAligned(freemem) && Unused(cs, held, lo, hi) && allocsz in {16, 32, 64, 128, 256}
      && Unused(cs, held, f, f + blocks[f])
      && (freepgs > 0 ==> Apart(f, f + blocks[f], lo, hi))
    }

    lemma LaidAside(f: int)
      requires Valid() && f in live
      ensures Aside(f) && Placed(cs, f, blocks[f])
    {
      var held := blocks - {f};
      assert Placed(cs, f, blocks[f]);
      FewerBlocks(cs, blocks, f);
      ChainsAside(mem, mem, bmem, chains, blocks, live, held, live - {f});
      AccountedAside(blocks, live, chains, held, live - {f});
      assert freepgs > 0 ==> Clear(blocks, f, freemem, freemem + Ptob(freepgs));
      forall p | p in held
        ensures Clear(held, p, f, f + blocks[f])
        ensures freepgs > 0 ==> Clear(held, p, freemem, freemem + Ptob(freepgs))
      {
        assert BlocksApart(blocks, p, f);
        assert freepgs > 0 ==> Clear(blocks, p, freemem, freemem + Ptob(freepgs));
      }
    }

    // Cells in hand become a block; all is well exactly if the page's tag gives its size.
    lemma Recorded(f: int, n: nat)
      requires Holding(f, f + n) && n >= 1
      ensures f !in blocks && f > 0
      ensures CoreOk(chunks, cs, mem, bmem, blocks[f := n], live + {f}, chains) <==> Placed(cs, f, n)
      ensures Unused(cs, blocks[f := n], freemem, freemem + Ptob(freepgs))
    {
      var held := blocks[f := n];
      ClearOfHand(cs, blocks, f, f + n);
      CarveUnused(cs, blocks, f, n, freemem, freemem + Ptob(freepgs));
      var d :| d in cs && Holds(d, f, f + n);
      assert ChunkOk(d, mem);
      if Placed(cs, f, n) {
        var c :| c in cs && BlockIn(c, f, n);
        CarveBlocks(cs, blocks, c, f, n, f + n);
        ChainsAside(mem, mem, bmem, chains, blocks, live, held, live + {f});
        AccountedAside(blocks, live, chains, held, live + {f});
      } else {
        assert !Placed(cs, f, held[f]);
      }
    }

    ghost method TakeAside(f: int)
      requires f in live && f in blocks && Aside(f)
      modifies this`blocks, this`live
      ensures blocks == old(blocks) - {f} && live == old(live) - {f}
      ensures Holding(f, f + old(blocks[f]))
    {
      blocks := blocks - {f};
      live := live - {f};
    }

    ghost method PutBack(f: int, n: nat)
      requires Holding(f, f + n) && n >= 1
      modifies this`blocks, this`live
      ensures f !in old(blocks) && blocks == old(blocks)[f := n] && live == old(live) + {f}
      ensures Valid() <==> Placed(cs, f, n)
      ensures f > 0 && Aside(f)
    {
      Recorded(f, n);
      ghost var held, kept := blocks, live;
      assert f !in kept;
      blocks := blocks[f := n];
      live := live + {f};
      assert blocks - {f} == held && live - {f} == kept;
      assert Core() <==> Placed(cs, f, n);
      assert Pool() && Unused(cs, blocks, 0, 0);
    }

    // Block f was the first of bucket k's chain, and nothing else has changed.
    ghost predicate Popped(f: int, k: nat, bmem0: seq<int>, chains0: seq<seq<int>>)
      requires k < |bmem0| == |chains0| == |bmem| == |chains|
      reads this`bmem, this`chains
    {
      && chains0[k] == [f] + chains[k] && bmem0[k] == f
      && chains == chains0[k := chains[k]] && bmem == bmem0[k := bmem[k]]
    }

    // Block f is the last of the m that were cut off pages of their own when bucket k was empty; the
    // others are on its chain, and nothing else is new.
    ghost predicate Refilled(f: int, k: nat, m: nat, mem0: Memory, chains0: seq<seq<int>>, held: map<int, nat>,
                             freemem0: int, freepgs0: nat, allocsz0: nat)
      requires k < |chains0|
      reads this`chains, this`blocks, this`mem, this`freemem, this`freepgs, this`allocsz
    {
      && m > 0 && Times(m, Pow2(k)) == Ptob(Btorp(Pow2(k)))
      && var p := f - Times(m - 1, Pow2(k));
         && Supplied(p, Btorp(Pow2(k)), mem0, freemem0, freepgs0, allocsz0)
         && chains == chains0[k := BlocksAt(p, Pow2(k), m - 1)]
         && OnlyNew(held, BlocksAt(p, Pow2(k), m))
    }

    // malloc of at most 32K
    method MallocSmall(size: nat) returns (f: int, ghost k: nat, ghost m: nat)
      requires Valid() && size <= 32768
      modifies this
      ensures Valid() && Handed(old(blocks), old(live), f, size) && Unchanged(old(mem), old(blocks))
      ensures Aside(f) && Placed(cs, f, blocks[f])
      ensures IsBucket(size, k)
      ensures old(bmem)[k] != 0 ==>
                && Popped(f, k, old(bmem), old(chains))
                && (mem, blocks, cs, freemem, freepgs, allocsz) == old((mem, blocks, cs, freemem, freepgs, allocsz))
      ensures old(bmem)[k] == 0 ==>
                Refilled(f, k, m, old(mem), old(chains), old(blocks), old(freemem), old(freepgs), old(allocsz))
    {
      var k' := BucketFor(size);
      k, m := k', 0;
      assert RightSize(size, Pow2(k));
      if bmem[k'] == 0 {
        f, m := TakeNew(k');
      } else {
        BlocksMapped(cs, mem, blocks);
        f := TakeFree(k');
      }
    }

    // malloc from an empty bucket: after the refill, the first block
    method TakeNew(k: nat) returns (f: int, ghost m: nat)
      requires Valid() && MIN_BUCKET <= k <= MAX_BUCKET && bmem[k] == 0
      modifies this
      ensures Valid() && f != 0 && f !in old(live) && live == old(live) + {f}
      ensures f in blocks && blocks[f] == Pow2(k) && HasBlocks(old(blocks)) && Unchanged(old(mem), old(blocks))
      ensures Aside(f) && Placed(cs, f, blocks[f])
      ensures Refilled(f, k, m, old(mem), old(chains), old(blocks), old(freemem), old(freepgs), old(allocsz))
    {
      ghost var p;
      p, m := Refill(k);
      ghost var bmem1, chains1 := bmem, chains;
      f := TakeFree(k);
      FirstOf(f, k, p, m, bmem1, chains1, old(chains));
    }

    lemma FirstOf(f: int, k: nat, p: int, m: nat, bmem1: seq<int>, chains1: seq<seq<int>>, chains0: seq<seq<int>>)
      requires k < |bmem1| == |chains1| == |bmem| == |chains| == |chains0| && m > 0
      requires chains1 == chains0[k := BlocksAt(p, Pow2(k), m)] && Popped(f, k, bmem1, chains1)
      ensures f == p + Times(m - 1, Pow2(k)) && chains == chains0[k := BlocksAt(p, Pow2(k), m - 1)]
    {
      assert BlocksAt(p, Pow2(k), m) == [p + Times(m - 1, Pow2(k))] + BlocksAt(p, Pow2(k), m - 1);
      assert chains1[k][1..] == chains[k];
    }

    // The first block of a chain becomes live.
    method TakeFree(k: nat) returns (f: int)
      requires Valid() && k <= MAX_BUCKET && bmem[k] != 0
      modifies this`bmem, this`chains, this`live
      ensures Valid() && f != 0 && f !in old(live) && live == old(live) + {f}
      ensures f in blocks && blocks[f] == Pow2(k) && Popped(f, k, old(bmem), old(chains))
      ensures Aside(f) && Placed(cs, f, blocks[f])
    {
      f := bmem[k];
      PopFree(mem, bmem, chains, blocks, live, k);
      assert ChainOk(mem, bmem, chains, k, blocks, live);
      assert chains[k] == [f] + chains[k][1..];
      bmem := bmem[k := mem[f].p];
      chains := chains[k := chains[k][1..]];
      live := live + {f};
      LaidAside(f);
    }

    // malloc handed out block f for a request of the given size.
    ghost predicate Handed(blocks0: map<int, nat>, live0: set<int>, f: int, size: nat)
      reads this
    {
      && f != 0 && f !in live0 && live == live0 + {f}
      && f in blocks && RightSize(size, blocks[f]) && size <= blocks[f]
      && HasBlocks(blocks0)
    }

    // A chunk of its own for a large block, tagged with its page count.
    method TaggedCore(pgs: nat) returns (newmem: int, ghost c: Chunk)
      requires Valid() && pgs > 0
      modifies this`mem, this`chunks, this`cs
      ensures Holding(newmem, End(c)) && c in cs && |c.perpage| == c.len == pgs && c.vaddr == newmem
      ensures Tag(c, newmem) == (pgs + MAX_BUCKET) % USHORT_RANGE
      ensures forall a | a in old(mem) :: a in mem && mem[a] == old(mem)[a]
      ensures Vacant(old(mem), newmem - NBPG, Ptob(pgs + 1)) && MappedMore(old(mem), mem, newmem - NBPG, Ptob(pgs + 1))
    {
      newmem, c := AllocCore(pgs);
      AddChunkUnused(c, old(cs), old(mem), blocks, freemem, freemem + Ptob(freepgs));
      c := SetSize(newmem, pgs + MAX_BUCKET, newmem + Ptob(pgs), c);
    }

    // Block f is whole pages that have just been mapped, behind a page for their description.
    ghost predicate OwnPages(f: int, size: nat, mem0: Memory, held: map<int, nat>)
      reads this
    {
      && blocks == held[f := Ptob(Btorp(size))] && Vacant(mem0, f - NBPG, Ptob(Btorp(size) + 1))
      && MappedMore(mem0, mem, f - NBPG, Ptob(Btorp(size) + 1))
    }

    // malloc of more than 32K.  Requests of so many pages that the count does not fit the
    // 16-bit tag are handed out, but leave the allocator in an invalid state.
    method MallocLarge(size: nat) returns (newmem: int)
      requires Valid() && size > 32768
      modifies this
      ensures Valid() <==> TagFits(size)
      ensures Handed(old(blocks), old(live), newmem, size) && Unchanged(old(mem), old(blocks))
      ensures Aside(newmem) && (Placed(cs, newmem, blocks[newmem]) <==> TagFits(size))
      ensures OwnPages(newmem, size, old(mem), old(blocks)) && (bmem, chains) == old((bmem, chains))
      ensures (freemem, freepgs, allocsz) == old((freemem, freepgs, allocsz))
    {
      BucketBounds();
      BlocksMapped(cs, mem, blocks);
      ghost var c;
      newmem, c := TaggedCore(Btorp(size));
      assert Unchanged(old(mem), old(blocks));
      HandOut(c, size);
    }

    ghost method HandOut(c: Chunk, size: nat)
      requires Holding(c.vaddr, End(c)) && c in cs && |c.perpage| == c.len == Btorp(size) && size > 32768
      requires Tag(c, c.vaddr) == (Btorp(size) + MAX_BUCKET) % USHORT_RANGE
      modifies this`blocks, this`live
      ensures Valid() <==> TagFits(size)
      ensures Handed(old(blocks), old(live), c.vaddr, size) && blocks == old(blocks)[c.vaddr := Ptob(c.len)]
      ensures Aside(c.vaddr) && (Placed(cs, c.vaddr, blocks[c.vaddr]) <==> TagFits(size))
    {
      LargePages(size);
      TagTells(c, size);
      PutBack(c.vaddr, Ptob(c.len));
    }

    lemma TagTells(c: Chunk, size: nat)
      requires ChunksOk(cs, mem) && c in cs && |c.perpage| == c.len == Btorp(size) && size > 32768
      requires Tag(c, c.vaddr) == (Btorp(size) + MAX_BUCKET) % USHORT_RANGE
      ensures Placed(cs, c.vaddr, Ptob(c.len)) <==> TagFits(size)
    {
      if TagFits(size) {
        assert BlockIn(c, c.vaddr, Ptob(c.len));
      } else {
        TruncatedTag(cs, mem, c, size);
      }
    }

    // malloc.  The first block of the bucket's chain is used again; only when there is none are pages
    // taken from the pool, and only when those are too few is memory mapped.
    method Malloc(size: nat) returns (f: int)
      requires Valid()
      modifies this
      ensures Valid() <==> TagFits(size)
      ensures Handed(old(blocks), old(live), f, size) && Unchanged(old(mem), old(blocks))
      ensures Aside(f) && (Placed(cs, f, blocks[f]) <==> TagFits(size))
      ensures size > 32768 ==>
                && OwnPages(f, size, old(mem), old(blocks)) && (bmem, chains) == old((bmem, chains))
                && (freemem, freepgs, allocsz) == old((freemem, freepgs, allocsz))
      ensures forall k: nat | IsBucket(size, k) && old(bmem)[k] != 0 ::
                && Popped(f, k, old(bmem), old(chains))
                && (mem, blocks, cs, freemem, freepgs, allocsz) == old((mem, blocks, cs, freemem, freepgs, allocsz))
      ensures forall k: nat | IsBucket(size, k) && old(bmem)[k] == 0 ::
                exists m: nat ::
                  Refilled(f, k, m, old(mem), old(chains), old(blocks), old(freemem), old(freepgs), old(allocsz))
    {
      BucketBounds();
      if size > 32768 {
        f := MallocLarge(size);
        assert forall k | IsBucket(size, k) :: false by {
          forall k | IsBucket(size, k) ensures false {
            Pow2Monotone(k, MAX_BUCKET);
          }
        }
      } else {
        ghost var k, m;
        f, k, m := MallocSmall(size);
        forall j | IsBucket(size, j) ensures j == k {
          OneBucket(size, j, k);
        }
      }
    }

    // ---- free ----

    // free of a bucket's block: it goes on the front of the chain
    method FreeSmall(p: int, k: nat, ghost lo: int, ghost hi: int)
      requires Holding(lo, hi) && p in live && MIN_BUCKET <= k <= MAX_BUCKET && blocks[p] == Pow2(k)
      modifies this`mem, this`bmem, this`chains, this`live
      ensures Holding(lo, hi) && live == old(live) - {p}
      ensures forall q | q in blocks && q != p :: SameCells(old(mem), mem, q, blocks[q])
      ensures SameCells(old(mem), mem, lo, hi - lo)
      ensures OnChain(p, k, old(bmem), old(chains)) && MappedMore(old(mem), mem, 0, 0)
    {
      FreeSmallApart(p, k);
      BlocksMapped(cs, mem, blocks);
      assert BlockMapped(mem, p, blocks[p]);
      PushFree(mem, bmem, chains, blocks, live, blocks, live - {p}, p, k);
      StillAccounted(blocks, live, chains, k, p, Pow2(k));
      StillMapped(cs, mem, WithLink(mem, p, bmem[k]));
      HandApart(p, 4, lo, hi);
      assert blocks[p := Pow2(k)] == blocks;
      mem := WithLink(mem, p, bmem[k]);
      bmem := bmem[k := p];
      chains := chains[k := [p] + chains[k]];
      live := live - {p};
      forall q | q in blocks && q != p ensures SameCells(old(mem), mem, q, blocks[q]) {
        assert BlockMapped(old(mem), q, blocks[q]);
      }
    }

    // Block p has gone on the front of bucket k's chain, and the other chains are as they were.
    ghost predicate OnChain(p: int, k: nat, bmem0: seq<int>, chains0: seq<seq<int>>)
      requires k < |bmem0| == |chains0|
      reads this`bmem, this`chains, this`mem
    {
      && bmem == bmem0[k := p] && chains == chains0[k := [p] + chains0[k]]
      && p in mem && mem[p] == Link(bmem0[k])
    }

    // The cells in hand are mapped, and none of them is in a block.
    lemma HandApart(p: int, n: nat, lo: int, hi: int)
      requires Holding(lo, hi) && p in blocks && n <= blocks[p]
      ensures lo < hi ==> BlockMapped(mem, lo, hi - lo) && Apart(p, p + n, lo, hi)
    {
      if lo < hi {
        var c :| c in cs && Holds(c, lo, hi);
        assert ChunkOk(c, mem) && Clear(blocks, p, lo, hi);
      }
    }

    lemma FreeSmallApart(p: int, k: nat)
      requires Core() && p in live && MIN_BUCKET <= k && blocks[p] == Pow2(k)
      ensures p > 0 && blocks[p] >= 4 && forall q | q in blocks && q != p :: q + blocks[q] <= p || p + 4 <= q
      ensures forall q | q in blocks :: blocks[q] >= 1
    {
      Pow2Monotone(MIN_BUCKET, k);
      assert Pow2(MIN_BUCKET) == 16;
      assert Placed(cs, p, blocks[p]);
      var c :| c in cs && BlockIn(c, p, blocks[p]);
      assert ChunkOk(c, mem);
      forall q | q in blocks ensures blocks[q] >= 1 && (q != p ==> q + blocks[q] <= p || p + 4 <= q) {
        assert Placed(cs, q, blocks[q]);
        assert q != p ==> BlocksApart(blocks, p, q);
      }
    }

    // free_core: the chunk whose data begin at the block is unmapped
    method FreeCore(p: int, ghost c: Chunk, ghost lo: int, ghost hi: int)
      requires Holding(lo, hi) && p in live && c in cs && c.vaddr == p && blocks[p] == Ptob(c.len) > 0
      modifies this`mem, this`chunks, this`cs, this`blocks, this`live
      ensures Holding(lo, hi) && live == old(live) - {p} && blocks == old(blocks) - {p}
      ensures forall q | q in blocks :: SameCells(old(mem), mem, q, blocks[q])
      ensures cs == old(cs) - {c} && SameCells(old(mem), mem, lo, hi - lo)
      ensures MappedLess(old(mem), mem, p - NBPG, NBPG + old(blocks)[p])
    {
      var i := FindHeader(p, c);
      FreeCoreOk(p, c);
      FreeCoreHand(p, c, lo, hi);
      ListsWithout(chunks, cs, i);
      mem := Unmapped(mem, p - NBPG, End(chunks[i]));
      chunks := chunks[..i] + chunks[i + 1..];
      cs := cs - {c};
      blocks := blocks - {p};
      live := live - {p};
    }

    // The cells in hand are in another chunk.
    lemma FreeCoreHand(p: int, c: Chunk, lo: int, hi: int)
      requires Holding(lo, hi) && p in live && c in cs && c.vaddr == p && blocks[p] == Ptob(c.len) > 0
      ensures Unused(cs - {c}, blocks - {p}, lo, hi)
      ensures SameCells(mem, Unmapped(mem, p - NBPG, End(c)), lo, hi - lo)
    {
      UnusedWithout(cs, blocks, c, p, lo, hi);
      if lo < hi {
        var d :| d in cs && Holds(d, lo, hi);
        assert Clear(blocks, p, lo, hi) && ChunkOk(d, mem);
        assert ChunksApart(c, d);
      }
    }

    lemma FreeCoreOk(p: int, c: Chunk)
      requires Valid() && p in live && c in cs && c.vaddr == p && blocks[p] == Ptob(c.len) > 0
      ensures var cs', mem', blocks', live' := cs - {c}, Unmapped(mem, p - NBPG, End(c)), blocks - {p}, live - {p};
              && ChunksOk(cs', mem') && BlocksOk(cs', blocks')
              && ChainsOk(mem', bmem, chains, blocks', live') && Accounted(blocks', live', chains)
              && Unused(cs', blocks', freemem, freemem + Ptob(freepgs))
              && forall q | q in blocks' :: SameCells(mem, mem', q, blocks'[q])
    {
      ghost var mem' := Unmapped(mem, p - NBPG, End(c));
      WithoutChunk(cs, mem, blocks, c, p);
      UnusedWithout(cs, blocks, c, p, freemem, freemem + Ptob(freepgs));
      SmallestBlock();
      forall q | q in blocks && q !in live && q in mem ensures q in mem' && mem'[q] == mem[q] {
        assert SameCells(mem, mem', q, blocks[q]);
      }
      ChainsAside(mem, mem', bmem, chains, blocks, live, blocks - {p}, live - {p});
      AccountedAside(blocks, live, chains, blocks - {p}, live - {p});
    }

    lemma SmallestBlock()
      requires BlocksOk(cs, blocks)
      ensures forall q | q in blocks :: blocks[q] >= 1
    {
      forall q | q in blocks ensures blocks[q] >= 1 {
        assert Placed(cs, q, blocks[q]);
      }
    }

    // The loop of free_core.
    method FindHeader(p: int, ghost c: Chunk) returns (i: nat)
      requires Core() && c in cs && c.vaddr == p
      ensures i < |chunks| && chunks[i] == c
    {
      assert c in chunks;
      ghost var at :| 0 <= at < |chunks| && chunks[at] == c;
      i := 0;
      while chunks[i].vaddr != p
        invariant i <= at
        decreases at - i
      {
        i := i + 1;
      }
      assert chunks[i] in cs;
      SameHeader(cs, mem, c, chunks[i]);
    }

    // free, also while the cells from lo to hi are in hand.  A bucket's block is the next that
    // malloc finds there; a large one is mapped no longer, and its chunk not listed.
    method Free(p: int, ghost lo: int := 0, ghost hi: int := 0)
      requires Holding(lo, hi) && (p == 0 || p in live)
      modifies this
      ensures Valid() && live == old(live) - {p}
      ensures forall q | q in old(blocks) && q != p ::
                q in blocks && blocks[q] == old(blocks)[q] && SameCells(old(mem), mem, q, blocks[q])
      ensures Holding(lo, hi) && SameCells(old(mem), mem, lo, hi - lo)
      ensures lo < hi ==> forall n :: Placed(cs, lo, n) <==> Placed(old(cs), lo, n)
      ensures (freemem, freepgs, allocsz) == old((freemem, freepgs, allocsz))
      ensures p == 0 ==> (mem, bmem, chains, chunks) == old((mem, bmem, chains, chunks))
      ensures p == 0 || old(PageTag(p)) <= MAX_BUCKET ==> blocks == old(blocks) && cs == old(cs)
      ensures p != 0 && old(PageTag(p)) <= MAX_BUCKET ==>
                OnChain(p, old(PageTag(p)), old(bmem), old(chains)) && MappedMore(old(mem), mem, 0, 0)
      ensures p != 0 && old(PageTag(p)) > MAX_BUCKET ==>
                && blocks == old(blocks) - {p} && bmem == old(bmem) && chains == old(chains)
                && cs == old(cs) - {old(Home(p))} && MappedLess(old(mem), mem, p - NBPG, NBPG + old(blocks)[p])
    {
      BlocksMapped(cs, mem, blocks);
      if p == 0 {
        ZeroIsNoBlock();
        HandMapped(lo, hi);
        return;
      }
      assert Placed(cs, p, blocks[p]);
      var sz := GetSize(p);
      if sz > MAX_BUCKET {
        ghost var c := Home(p);
        OtherChunks(p, c, lo, hi);
        FreeCore(p, c, lo, hi);
        return;
      }
      FreeSmall(p, sz, lo, hi);
    }

    lemma HandMapped(lo: int, hi: int)
      requires Holding(lo, hi)
      ensures SameCells(mem, mem, lo, hi - lo)
    {
      if lo < hi {
        var c :| c in cs && Holds(c, lo, hi);
        assert ChunkOk(c, mem);
      }
    }

    // The chunk of a large block holds nothing in hand.
    lemma OtherChunks(p: int, c: Chunk, lo: int, hi: int)
      requires Holding(lo, hi) && p in blocks && c in cs && c.vaddr == p && blocks[p] == Ptob(c.len)
      ensures lo < hi ==> forall n :: Placed(cs - {c}, lo, n) <==> Placed(cs, lo, n)
    {
      if lo < hi {
        assert Clear(blocks, p, lo, hi);
        forall n | Placed(cs, lo, n) ensures Placed(cs - {c}, lo, n) {
          var d :| d in cs && BlockIn(d, lo, n);
          assert d in cs - {c};
        }
        forall n | Placed(cs - {c}, lo, n) ensures Placed(cs, lo, n) {
          var d :| d in cs - {c} && BlockIn(d, lo, n);
        }
      }
    }

    lemma ZeroIsNoBlock()
      requires Core()
      ensures 0 !in blocks
    {
      forall q | q in blocks ensures q != 0 {
        assert Placed(cs, q, blocks[q]);
        var c :| c in cs && BlockIn(c, q, blocks[q]);
        assert ChunkOk(c, mem);
      }
    }

    // ---- What programs do with their blocks ----

    // A block that is freed is the one that the next request for its bucket gets, and no memory is
    // taken for it.
    method Reuse(p: int, size: nat) returns (r: int)
      requires Valid() && p in live && p in blocks && Placed(cs, p, blocks[p]) && IsBucket(size, PageTag(p))
      modifies this
      ensures Valid() && r == p && live == old(live) && blocks == old(blocks) && chains == old(chains)
      ensures MappedMore(old(mem), mem, 0, 0)
    {
      ZeroIsNoBlock();
      ghost var k, chain := PageTag(p), chains;
      Free(p);
      assert bmem[k] == p;
      assert chains[k][1..] == chain[k];
      ghost var pushed := chains[k];
      r := Malloc(size);
      assert pushed[1..] == chains[k];
      assert chains == chain;
    }

    // Storing into a live block keeps the allocator valid and touches no other block.
    method Store(p: int, a: int, b: int)
      requires Valid() && p in live && p <= a < p + blocks[p]
      modifies this`mem
      ensures Valid() && mem == old(mem)[a := Byte(b)]
      ensures forall q | q in blocks && q != p :: SameCells(old(mem), mem, q, blocks[q])
    {
      ScribbleOk(mem[a := Byte(b)], p);
      mem := mem[a := Byte(b)];
    }

    // Memory that differs only inside live block p is as good.
    lemma ScribbleOk(mem': Memory, p: int)
      requires Core() && p in live
      requires forall a | a in mem :: a in mem'
      requires forall a | a in mem && !(p <= a < p + blocks[p]) :: mem'[a] == mem[a]
      ensures CoreOk(chunks, cs, mem', bmem, blocks, live, chains)
      ensures forall q | q in blocks && q != p :: SameCells(mem, mem', q, blocks[q])
    {
      StillMapped(cs, mem, mem');
      BlocksMapped(cs, mem, blocks);
      SmallestBlock();
      forall q | q in blocks && q != p
        ensures SameCells(mem, mem', q, blocks[q]) && !(p <= q < p + blocks[p])
      {
        assert BlocksApart(blocks, p, q) && BlockMapped(mem, q, blocks[q]);
      }
      ChainsAside(mem, mem', bmem, chains, blocks, live, blocks, live);
    }

    // bcopy from a live block to cells in hand
    method Copy(from: int, to: int, n: nat, ghost hi: int)
      requires Holding(to, hi) && from in live && n <= blocks[from] && to + n <= hi
      modifies this`mem
      ensures Holding(to, hi) && Carried(old(mem), mem, from, to, n) && mem.Keys == old(mem).Keys
      ensures forall q | q in blocks :: SameCells(old(mem), mem, q, blocks[q])
    {
      HandMapped(to, hi);
      OneMapped(cs, mem, blocks, from);
      assert BlockMapped(mem, from, blocks[from]);
      CopyOk(Copied(mem, from, to, n), to, hi);
      mem := Copied(mem, from, to, n);
    }

    // Memory that differs only in the cells in hand is as good.
    lemma CopyOk(mem': Memory, lo: int, hi: int)
      requires Holding(lo, hi)
      requires mem'.Keys == mem.Keys && forall a | a in mem && !(lo <= a < hi) :: mem'[a] == mem[a]
      ensures CoreOk(chunks, cs, mem', bmem, blocks, live, chains)
      ensures forall q | q in blocks :: SameCells(mem, mem', q, blocks[q])
    {
      StillMapped(cs, mem, mem');
      BlocksMapped(cs, mem, blocks);
      SmallestBlock();
      forall q | q in blocks ensures SameCells(mem, mem', q, blocks[q]) && !(lo <= q < hi) {
        assert BlockMapped(mem, q, blocks[q]) && (lo < hi ==> Clear(blocks, q, lo, hi));
      }
      ChainsAside(mem, mem', bmem, chains, blocks, live, blocks, live);
    }

    // The bytes get_size stands for.
    method OldSize(p: int) returns (n: nat)
      requires Valid() && p in live
      ensures n == blocks[p]
    {
      var t := GetSize(p);
      n := if t <= MAX_BUCKET then Pow2(t) else Ptob(t - MAX_BUCKET);
    }

    // The blocks held are still there, with their contents.
    ghost predicate Kept(was: Memory, held: map<int, nat>)
      reads this`blocks, this`mem
    {
      forall q | q in held :: q in blocks && blocks[q] == held[q] && SameCells(was, mem, q, held[q])
    }

    // Block p, of n bytes, is the first of its bucket's chain, or it is mapped no longer and neither is
    // the page before it.
    ghost predicate GivenBack(p: int, n: nat)
      reads this`blocks, this`mem, this`bmem, this`chains
    {
      || (p in blocks && exists k: nat | k < |bmem| == |chains| ::
            n == blocks[p] == Pow2(k) && bmem[k] == p && chains[k] != [] && chains[k][0] == p)
      || (p !in blocks && forall a | p - NBPG <= a < p + n :: a !in mem)
    }

    // What realloc does with block p once it has a new block r.  Until r has its contents and p
    // is freed, r's cells count as in hand: its tag need not be right.
    method Replace(p: int, r: int, n: nat)
      requires p in live && r in live && p != r && p in blocks && r in blocks && Aside(r)
      requires n <= blocks[p] && n <= blocks[r]
      modifies this
      ensures Valid() <==> old(Placed(cs, r, blocks[r]))
      ensures live == old(live) - {p} && Kept(old(mem), old(blocks) - {p, r})
      ensures r in blocks && blocks[r] == old(blocks[r]) && Carried(old(mem), mem, p, r, n)
      ensures GivenBack(p, old(blocks[p])) && forall a | a in mem :: a in old(mem)
    {
      ghost var size, others := blocks[r], blocks - {p, r};
      TakeAside(r);
      Copy(p, r, n, r + size);
      ghost var copied, m := mem, blocks[p];
      assert Kept(old(mem), others);
      FreeGivesBack(p, r, r + size);
      assert SameCells(copied, mem, r, size);
      assert GivenBack(p, m);
      KeptAgain(old(mem), copied, others);
      PutBack(r, size);
    }

    // free, for what realloc needs of it
    method FreeGivesBack(p: int, ghost lo: int, ghost hi: int)
      requires Holding(lo, hi) && lo < hi && p in live
      modifies this
      ensures Holding(lo, hi) && live == old(live) - {p}
      ensures Kept(old(mem), old(blocks) - {p}) && SameCells(old(mem), mem, lo, hi - lo)
      ensures forall a | a in mem :: a in old(mem)
      ensures forall n :: Placed(cs, lo, n) <==> Placed(old(cs), lo, n)
      ensures GivenBack(p, old(blocks[p]))
    {
      ZeroIsNoBlock();
      assert Placed(cs, p, blocks[p]);
      ghost var t := PageTag(p);
      assert t <= MAX_BUCKET ==> blocks[p] == Pow2(t);
      Free(p, lo, hi);
      if t <= MAX_BUCKET {
        assert bmem[t] == p && chains[t][0] == p;
      }
    }

    lemma KeptAgain(was: Memory, mid: Memory, held: map<int, nat>)
      requires forall q | q in held :: SameCells(was, mid, q, held[q])
      requires Kept(mid, held)
      ensures Kept(was, held)
    {
    }

    // malloc, for what realloc needs of it
    method MallocElsewhere(size: nat) returns (f: int)
      requires Valid()
      modifies this
      ensures Valid() <==> TagFits(size)
      ensures Handed(old(blocks), old(live), f, size) && Unchanged(old(mem), old(blocks))
      ensures Aside(f) && (Placed(cs, f, blocks[f]) <==> TagFits(size))
      ensures forall k: nat | IsBucket(size, k) && old(bmem)[k] != 0 :: f == old(bmem)[k] && mem == old(mem)
    {
      f := Malloc(size);
    }

    // Where the bucket has a block, that one is used, and no memory is mapped.
    ghost predicate UsesChain(size: nat, r: int, bmem0: seq<int>, mem0: Memory)
      requires |bmem0| == MAX_BUCKET + 1
      reads this`mem
    {
      forall k: nat | IsBucket(size, k) && bmem0[k] != 0 :: r == bmem0[k] && forall a | a in mem :: a in mem0
    }

    // realloc of a live block that has to move
    method Move(p: int, newsize: nat, oldsize: nat) returns (r: int)
      requires Valid() && p in live && oldsize == blocks[p]
      modifies this
      ensures Valid() <==> TagFits(newsize)
      ensures r !in old(live) && r in live && live == old(live) - {p} + {r} && r in blocks && newsize <= blocks[r]
      ensures Carried(old(mem), mem, p, r, if oldsize < newsize then oldsize else newsize)
      ensures Kept(old(mem), map q | q in old(live) && q != p :: old(blocks)[q])
      ensures GivenBack(p, oldsize) && UsesChain(newsize, r, old(bmem), old(mem))
    {
      r := MallocElsewhere(newsize);
      ghost var mid, held := mem, blocks;
      assert SameBlocks(old(mem), mid, old(blocks), held);
      assert SameCells(old(mem), mid, p, oldsize);
      Replace(p, r, if oldsize < newsize then oldsize else newsize);
      KeptLive(old(mem), mid, old(blocks), held, old(live), p, r);
    }

    ghost predicate SameBlocks(was: Memory, mid: Memory, held0: map<int, nat>, held: map<int, nat>) {
      forall q | q in held0 :: q in held && held[q] == held0[q] && SameCells(was, mid, q, held0[q])
    }

    lemma KeptLive(was: Memory, mid: Memory, held0: map<int, nat>, held: map<int, nat>, live0: set<int>, p: int, r: int)
      requires SameBlocks(was, mid, held0, held) && live0 <= held0.Keys && r !in live0
      requires Kept(mid, held - {p, r})
      ensures Kept(was, map q | q in live0 && q != p :: held0[q])
    {
      forall q | q in live0 && q != p
        ensures q in blocks && blocks[q] == held0[q] && SameCells(was, mem, q, held0[q])
      {
        assert q in held - {p, r};
        assert SameCells(was, mid, q, held0[q]) && SameCells(mid, mem, q, held0[q]);
      }
    }

    // No block is larger than a tag can tell.
    lemma BlockFits(p: int, size: nat)
      requires Core() && p in blocks && size <= blocks[p]
      ensures TagFits(size)
    {
      BucketBounds();
      assert Placed(cs, p, blocks[p]);
      var c :| c in cs && BlockIn(c, p, blocks[p]);
      if Tag(c, p) <= MAX_BUCKET {
        Pow2Monotone(Tag(c, p), MAX_BUCKET);
      }
    }

    // realloc
    method Realloc(p: int, newsize: nat) returns (r: int)
      requires Valid() && (p == 0 || p in live)
      modifies this
      ensures Valid() <==> TagFits(newsize)
      ensures r in live && live == old(live) - {p} + {r} && r in blocks && newsize <= blocks[r]
      ensures r == p || r !in old(live)
      ensures p != 0 ==> Carried(old(mem), mem, p, r, if old(blocks[p]) < newsize then old(blocks[p]) else newsize)
      ensures Kept(old(mem), map q | q in old(live) && q != p :: old(blocks)[q])
      ensures r != p <==>
                p == 0 || newsize > old(blocks[p]) || (old(blocks[p]) > 32768 && newsize <= old(blocks[p]) / 2)
      ensures r == p ==>
                && (mem, blocks, cs, freemem, freepgs, allocsz) == old((mem, blocks, cs, freemem, freepgs, allocsz))
                && (bmem, chains) == old((bmem, chains))
      ensures r != p && p != 0 ==> GivenBack(p, old(blocks[p]))
      ensures r != p ==> UsesChain(newsize, r, old(bmem), old(mem))
    {
      BlocksMapped(cs, mem, blocks);
      if p == 0 {
        ZeroIsNoBlock();
        r := MallocElsewhere(newsize);
        return;
      }
      var oldsize := OldSize(p);
      assert BlockMapped(mem, p, oldsize);
      if newsize <= oldsize && !(oldsize > 32768 && newsize <= oldsize / 2) {
        BlockFits(p, newsize);
        return p;
      }
      r := Move(p, newsize, oldsize);
    }
  }
}
