/** The hashed lookup mechanism (src/libc/hash.c): an array of singly linked chains.  A key
  may be inserted more than once; the most recent insertion is the one that is found and
  deleted. */
module Hash {
  import opened Options
  import opened PowersOfTwo

  // Binary exclusive or, digit by digit.
  function Xor(a: nat, b: nat): (r: nat)
    decreases a + b
  {
    if a == 0 then b else if b == 0 then a
    else 2 * Xor(a / 2, b / 2) + (a + b) % 2
  }

  // hashidx
  function HashIdx(key: nat, size: nat): (i: nat)
    requires size > 0
    ensures i < size
  {
    Xor(key, key / 4) % size
  }

  lemma {:induction false} XorDigit(a: nat, b: nat, k: nat)
    ensures Digit(Xor(a, b), k) == if Digit(a, k) == Digit(b, k) then 0 else 1
    decreases k
  {
    if a == 0 || b == 0 {
      NoDigits(k);
    } else {
      OneDigit(a, b, Xor(a / 2, b / 2));
      if k > 0 {
        XorDigit(a / 2, b / 2, k - 1);
      }
    }
  }

  lemma OneDigit(a: nat, b: nat, h: nat)
    ensures var v := 2 * h + (a + b) % 2;
            v / 2 == h && v % 2 == if a % 2 == b % 2 then 0 else 1
  {
    assert a == 2 * (a / 2) + a % 2 && b == 2 * (b / 2) + b % 2;
  }

  lemma {:induction false} NoDigits(k: nat)
    ensures Digit(0, k) == 0
  {
    if k > 0 {
      NoDigits(k - 1);
    }
  }

  lemma {:induction false} DigitFurther(v: nat, k: nat)
    ensures Digit(v / 4, k) == Digit(v, k + 2)
  {
    assert Digit(v, k + 2) == Digit(v / 2, k + 1) == Digit(v / 2 / 2, k);
  }

  // With 32 chains, digit k of a key's chain tells whether digits k and k + 2 of the key differ.
  lemma HashIdxDigit(key: nat, k: nat)
    requires k < 5
    ensures Digit(HashIdx(key, 32), k) == if Digit(key, k) == Digit(key, k + 2) then 0 else 1
  {
    var v := Xor(key, key / 4);
    XorDigit(key, key / 4, k);
    DigitFurther(key, k);
    LowDigit(v, k);
  }

  // q doubled j times
  function Doubled(q: nat, j: nat): (r: nat) {
    if j == 0 then q else 2 * Doubled(q, j - 1)
  }

  lemma {:induction false} LowDigits(q: nat, j: nat, r: nat, k: nat)
    requires k < j
    ensures Digit(Doubled(q, j) + r, k) == Digit(r, k)
    decreases j
  {
    var d := Doubled(q, j - 1);
    assert (2 * d + r) % 2 == r % 2 && (2 * d + r) / 2 == d + r / 2;
    if k > 0 {
      LowDigits(q, j - 1, r / 2, k - 1);
    }
  }

  lemma LowDigit(v: nat, k: nat)
    requires k < 5
    ensures Digit(v % 32, k) == Digit(v, k)
  {
    var q := v / 32;
    assert Doubled(q, 5) == 2 * Doubled(q, 4) && Doubled(q, 4) == 2 * Doubled(q, 3);
    assert Doubled(q, 3) == 2 * Doubled(q, 2) && Doubled(q, 2) == 2 * Doubled(q, 1) && Doubled(q, 1) == 2 * q;
    assert v == Doubled(q, 5) + v % 32;
    LowDigits(q, 5, v % 32, k);
  }

  // ---- Chains as values: key/value pairs, most recent first ----

  type Pairs<V> = seq<(nat, V)>

  function Find<V>(s: Pairs<V>, key: nat): (r: Option<V>) {
    if s == [] then None else if s[0].0 == key then Some(s[0].1) else Find(s[1..], key)
  }

  // The position of a key's most recent pair, or the length if there is none.
  function IndexOf<V>(s: Pairs<V>, key: nat): (i: nat)
    ensures i <= |s| && (i < |s| ==> s[i].0 == key)
    ensures forall j | 0 <= j < i :: s[j].0 != key
    ensures Find(s, key) == if i < |s| then Some(s[i].1) else None
  {
    if s == [] || s[0].0 == key then 0 else 1 + IndexOf(s[1..], key)
  }

  // s without a key's most recent pair.
  function Without<V>(s: Pairs<V>, key: nat): (r: Pairs<V>)
    ensures forall e | e in r :: e in s
  {
    if s == [] then [] else if s[0].0 == key then s[1..] else [s[0]] + Without(s[1..], key)
  }

  ghost predicate UniqueKeys<V>(s: Pairs<V>) {
    forall i, j | 0 <= i < j < |s| :: s[i].0 != s[j].0
  }

  lemma DropLater<T>(s: seq<T>, j: nat)
    requires j + 1 < |s|
    ensures s[..j + 1] + s[j + 2..] == [s[0]] + (s[1..][..j] + s[1..][j + 1..])
  {
    var a, b := s[..j + 1] + s[j + 2..], [s[0]] + (s[1..][..j] + s[1..][j + 1..]);
    assert |a| == |b| && forall k | 0 <= k < |a| :: a[k] == b[k];
  }

  lemma {:induction false} WithoutAt<V>(s: Pairs<V>, key: nat)
    ensures var i := IndexOf(s, key); Without(s, key) == if i < |s| then s[..i] + s[i + 1..] else s
    decreases |s|
  {
    if s != [] && s[0].0 != key {
      WithoutAt(s[1..], key);
      var j := IndexOf(s[1..], key);
      if j + 1 < |s| {
        DropLater(s, j);
      }
    }
  }

  // Keys that are not there are not found.
  lemma {:induction false} Missing<V>(s: Pairs<V>, key: nat)
    requires forall i | 0 <= i < |s| :: s[i].0 != key
    ensures Find(s, key) == None
  {
    if s != [] {
      Missing(s[1..], key);
    }
  }

  lemma {:induction false} UniqueWithout<V>(s: Pairs<V>, key: nat)
    requires UniqueKeys(s)
    ensures UniqueKeys(Without(s, key))
    decreases |s|
  {
    if s != [] && s[0].0 != key {
      UniqueWithout(s[1..], key);
      UniqueCons(s, Without(s[1..], key));
    }
  }

  lemma UniqueCons<V>(s: Pairs<V>, rest: Pairs<V>)
    requires s != [] && UniqueKeys(s) && UniqueKeys(rest) && forall e | e in rest :: e in s[1..]
    ensures UniqueKeys([s[0]] + rest)
  {
    var r := [s[0]] + rest;
    forall i, j | 0 <= i < j < |r| ensures r[i].0 != r[j].0 {
      assert r[j] == rest[j - 1] && rest[j - 1] in s[1..];
      if i == 0 {
        var t :| 0 <= t < |s[1..]| && s[1..][t] == rest[j - 1];
        assert s[t + 1] == rest[j - 1];
      } else {
        assert r[i] == rest[i - 1];
      }
    }
  }

  // With unique keys, deleting a key makes it, and only it, unfindable.
  lemma {:induction false} FindWithout<V>(s: Pairs<V>, key: nat, k: nat)
    requires UniqueKeys(s)
    ensures Find(Without(s, key), k) == if k == key then None else Find(s, k)
    decreases |s|
  {
    if s != [] {
      if s[0].0 == key {
        Missing(s[1..], key);
      } else {
        FindWithout(s[1..], key, k);
        var rest := Without(s[1..], key);
        assert ([s[0]] + rest)[1..] == rest;
      }
    }
  }

  function Flatten<V>(lists: seq<Pairs<V>>): (r: Pairs<V>) {
    if lists == [] then [] else lists[0] + Flatten(lists[1..])
  }

  lemma {:induction false} FlattenAppend<V>(a: seq<Pairs<V>>, b: Pairs<V>)
    ensures Flatten(a + [b]) == Flatten(a) + b
  {
    if a == [] {
      assert a + [b] == [b];
    } else {
      assert (a + [b])[1..] == a[1..] + [b];
      FlattenAppend(a[1..], b);
    }
  }

  // ---- The data structure ----

  class Node<V> {
    const key: nat
    const data: V
    var next: Node?<V>

    constructor (key: nat, data: V, next: Node?<V>)
      ensures this.key == key && this.data == data && this.next == next
    {
      this.key := key;
      this.data := data;
      this.next := next;
    }
  }

  // Node i of the chain holds pair i and leads to node i + 1.
  ghost predicate Step<V>(c: seq<Node<V>>, l: Pairs<V>, i: int)
    requires 0 <= i < |c| == |l|
    reads c
  {
    c[i].next == (if i + 1 < |c| then c[i + 1] else null) && l[i] == (c[i].key, c[i].data)
  }

  predicate Differ<V>(c: seq<Node<V>>, i: int, j: int)
    requires 0 <= i < |c| && 0 <= j < |c|
  {
    c[i] != c[j]
  }

  // The nodes c are linked from head to null and hold the pairs l.
  ghost predicate Linked<V>(head: Node?<V>, c: seq<Node<V>>, l: Pairs<V>)
    reads c
  {
    && |c| == |l|
    && head == (if c == [] then null else c[0])
    && (forall i {:trigger Step(c, l, i)} | 0 <= i < |c| :: Step(c, l, i))
    && (forall i, j {:trigger Differ(c, i, j)} | 0 <= i < j < |c| :: Differ(c, i, j))
  }

  class Table<V> {
    const heads: array<Node?<V>>
    ghost var nodes: seq<seq<Node<V>>>   // the nodes of each chain, in order
    ghost var lists: seq<Pairs<V>>       // and what they hold
    ghost var allNodes: set<Node<V>>

    // Chain b is linked through its nodes, which are used in no other chain.
    ghost predicate ChainOk(b: nat)
      requires b < heads.Length == |nodes| == |lists|
      reads this, heads, allNodes
    {
      && (forall n | n in nodes[b] :: n in allNodes && HashIdx(n.key, heads.Length) == b)
      && Linked(heads[b], nodes[b], lists[b])
    }

    ghost predicate Valid()
      reads this, heads, allNodes
    {
      && heads.Length == |nodes| == |lists| > 0
      && forall b {:trigger ChainOk(b)} | 0 <= b < heads.Length :: ChainOk(b)
    }

    lemma NextNode(b: nat, i: nat)
      requires Valid() && b < heads.Length && i < |nodes[b]|
      ensures nodes[b][i].next == if i + 1 < |nodes[b]| then nodes[b][i + 1] else null
      ensures |lists[b]| == |nodes[b]| && lists[b][i] == (nodes[b][i].key, nodes[b][i].data)
    {
      assert ChainOk(b) && Step(nodes[b], lists[b], i);
    }

    ghost function Chain(key: nat): (r: Pairs<V>)
      requires heads.Length == |lists| > 0
      reads this
    {
      lists[HashIdx(key, heads.Length)]
    }

    // hash_alloc
    constructor (hashsize: nat)
      requires hashsize > 0
      ensures Valid() && fresh(heads) && heads.Length == hashsize && allNodes == {}
      ensures lists == seq(hashsize, _ => [])
    {
      heads := new Node?<V>[hashsize](_ => null);
      nodes := seq(hashsize, _ => []);
      lists := seq(hashsize, _ => []);
      allNodes := {};
    }

    // hash_insert
    method Insert(key: nat, val: V)
      requires Valid()
      modifies this, heads
      ensures Valid() && fresh(allNodes - old(allNodes))
      ensures lists == var b := HashIdx(key, heads.Length); old(lists[b := [(key, val)] + lists[b]])
    {
      var idx := HashIdx(key, heads.Length);
      assert ChainOk(idx);
      ghost var c, l := nodes[idx], lists[idx];
      assert forall b | 0 <= b < heads.Length :: ChainOk(b);
      var hn := new Node<V>(key, val, heads[idx]);
      nodes := nodes[idx := [hn] + c];
      lists := lists[idx := [(key, val)] + l];
      allNodes := allNodes + {hn};
      heads[idx] := hn;
      forall i | 0 <= i < |c| + 1 ensures Step([hn] + c, [(key, val)] + l, i) {
        assert i > 0 ==> Step(c, l, i - 1);
      }
      forall i, j | 0 <= i < j < |c| + 1 ensures Differ([hn] + c, i, j) {
        assert i > 0 ==> Differ(c, i - 1, j - 1);
        assert ([hn] + c)[j] == c[j - 1] && c[j - 1] in old(allNodes);
      }
      forall b | 0 <= b < heads.Length ensures ChainOk(b) {
        assert old(ChainOk(b));
      }
    }

    // hash_lookup
    method Lookup(key: nat) returns (r: Option<V>)
      requires Valid()
      ensures r == Find(Chain(key), key)
    {
      var idx := HashIdx(key, heads.Length);
      assert ChainOk(idx);
      var hn := heads[idx];
      ghost var i, c, l := 0, nodes[idx], lists[idx];
      assert l[0..] == l;
      while hn != null
        invariant 0 <= i <= |c| && hn == (if i < |c| then c[i] else null)
        invariant Find(l, key) == Find(l[i..], key)
        decreases |c| - i
      {
        NextNode(idx, i);
        if hn.key == key {
          return Some(hn.data);
        }
        assert l[i..][1..] == l[i + 1..];
        hn := hn.next;
        i := i + 1;
      }
      return None;
    }

    // The walk of hash_delete: the node that holds the key and the one before it.
    method Locate(key: nat) returns (prev: Node?<V>, hn: Node?<V>, ghost i: nat)
      requires Valid()
      ensures var b := HashIdx(key, heads.Length); var c := nodes[b];
              && i == IndexOf(lists[b], key) && |c| == |lists[b]|
              && hn == (if i < |c| then c[i] else null)
              && prev == (if i > 0 then c[i - 1] else null)
    {
      var idx := HashIdx(key, heads.Length);
      assert ChainOk(idx);
      prev := null;
      hn := heads[idx];
      i := 0;
      ghost var c, l := nodes[idx], lists[idx];
      while hn != null && hn.key != key
        invariant 0 <= i <= |c| && hn == (if i < |c| then c[i] else null)
        invariant prev == (if i > 0 then c[i - 1] else null)
        invariant forall j | 0 <= j < i :: l[j].0 != key
        decreases |c| - i
      {
        NextNode(idx, i);
        prev := hn;
        hn := hn.next;
        i := i + 1;
      }
      if hn != null {
        NextNode(idx, i);
      }
    }

    // hash_delete: 1 if the key is not there
    method Delete(key: nat) returns (r: int)
      requires Valid()
      modifies this, heads, allNodes
      ensures Valid() && allNodes == old(allNodes)
      ensures lists == var b := HashIdx(key, heads.Length); old(lists[b := Without(lists[b], key)])
      ensures r == if Find(old(Chain(key)), key).Some? then 0 else 1
    {
      var idx := HashIdx(key, heads.Length);
      var prev, hn;
      ghost var i;
      prev, hn, i := Locate(key);
      WithoutAt(lists[idx], key);
      if hn == null {
        return 1;
      }
      Unlink(idx, prev, hn, i);
      return 0;
    }

    // Patches node i out of chain b.
    method Unlink(b: nat, prev: Node?<V>, hn: Node<V>, ghost i: nat)
      requires Valid() && b < heads.Length && i < |nodes[b]|
      requires hn == nodes[b][i] && prev == (if i > 0 then nodes[b][i - 1] else null)
      modifies this, heads, allNodes
      ensures Valid() && allNodes == old(allNodes)
      ensures i < |old(lists[b])| && lists == old(lists[b := lists[b][..i] + lists[b][i + 1..]])
    {
      assert ChainOk(b) && Step(nodes[b], lists[b], i);
      ghost var c, l := nodes[b], lists[b];
      ghost var c', l' := c[..i] + c[i + 1..], l[..i] + l[i + 1..];
      nodes := nodes[b := c'];
      lists := lists[b := l'];
      if prev == null {
        heads[b] := hn.next;
      } else {
        prev.next := hn.next;
      }
      forall k | 0 <= k < |c'| ensures Step(c', l', k) {
        var m := if k < i then k else k + 1;
        assert old(Step(c, l, m));
        assert i > 0 && m != i - 1 ==> Differ(c, if m < i - 1 then m else i - 1, if m < i - 1 then i - 1 else m);
      }
      forall j, k | 0 <= j < k < |c'| ensures Differ(c', j, k) {
        assert Differ(c, if j < i then j else j + 1, if k < i then k else k + 1);
      }
      assert Linked(heads[b], c', l');
      forall a | 0 <= a < heads.Length ensures ChainOk(a) {
        assert old(ChainOk(a));
        assert a != b && prev != null ==> prev !in nodes[a];
      }
    }

    // hash_size
    method Size() returns (cnt: nat)
      requires Valid()
      ensures cnt == |Flatten(lists)|
    {
      var s := Entries();
      cnt := |s|;
    }

    // hash_foreach, collecting what it visits
    method Entries() returns (s: Pairs<V>)
      requires Valid()
      ensures s == Flatten(lists)
    {
      s := [];
      for x := 0 to heads.Length
        invariant s == Flatten(lists[..x])
      {
        var t := ChainEntries(x);
        s := s + t;
        assert lists[..x + 1] == lists[..x] + [lists[x]];
        FlattenAppend(lists[..x], lists[x]);
      }
      assert lists[..heads.Length] == lists;
    }

    // The inner loop of hash_foreach.
    method ChainEntries(x: nat) returns (s: Pairs<V>)
      requires Valid() && x < heads.Length
      ensures s == lists[x]
    {
      s := [];
      assert ChainOk(x);
      var hn := heads[x];
      ghost var i, c, l := 0, nodes[x], lists[x];
      while hn != null
        invariant 0 <= i <= |c| && hn == (if i < |c| then c[i] else null)
        invariant s == l[..i]
        decreases |c| - i
      {
        NextNode(x, i);
        s := s + [(hn.key, hn.data)];
        hn := hn.next;
        i := i + 1;
      }
    }
  }
}
