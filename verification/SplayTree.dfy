/** The code trees of the compressor (src/libc/pio.c), for any number n of internal nodes.

  Internal nodes are 1..n, leaves are n+1..2n+1, and node 1 is the root.  A tree is
  three parallel arrays; `Links` is the value those arrays hold.  What makes the arrays
  a tree is that every node has a code: the left/right turns from the root to it. */
module SplayTree {
  import opened Options

  type Bits = seq<bool>

  const ROOT := 1

  datatype Links = Links(up: seq<int>, left: seq<int>, right: seq<int>)

  // The number of internal nodes.
  function N(t: Links): (r: int) {
    |t.left| - 1
  }

  predicate Node(t: Links, x: int) {
    1 <= x <= 2 * N(t) + 1
  }

  predicate Leaf(t: Links, x: int) {
    N(t) < x <= 2 * N(t) + 1
  }

  predicate Sized(t: Links) {
    N(t) >= 1 && |t.right| == |t.left| && |t.up| == 2 * N(t) + 2
  }

  // Node x is a child of its parent.
  predicate HasParent(t: Links, x: int)
    requires Sized(t) && 2 <= x <= 2 * N(t) + 1
  {
    1 <= t.up[x] <= N(t) && (t.left[t.up[x]] == x || t.right[t.up[x]] == x)
  }

  // Internal node i has two different children, and it is their parent.
  predicate HasChildren(t: Links, i: int)
    requires Sized(t) && 1 <= i <= N(t)
  {
    && 2 <= t.left[i] <= 2 * N(t) + 1
    && 2 <= t.right[i] <= 2 * N(t) + 1
    && t.left[i] != t.right[i]
    && t.up[t.left[i]] == i
    && t.up[t.right[i]] == i
  }

  // The three arrays agree.
  predicate Linked(t: Links) {
    && Sized(t)
    && (forall x | 2 <= x <= 2 * N(t) + 1 :: HasParent(t, x))
    && (forall i | 1 <= i <= N(t) :: HasChildren(t, i))
  }

  function Parent(t: Links, x: int): (p: int)
    requires Linked(t) && 2 <= x <= 2 * N(t) + 1
    ensures 1 <= p <= N(t)
  {
    assert HasParent(t, x);
    t.up[x]
  }

  // Node x is on the right of its parent.
  predicate Side(t: Links, x: int)
    requires Linked(t) && 2 <= x <= 2 * N(t) + 1
  {
    t.right[Parent(t, x)] == x
  }

  // The code of x is its parent's code and one more turn: true is right, false is left.
  ghost predicate Extends(t: Links, code: seq<Bits>, x: int)
    requires Linked(t) && |code| == 2 * N(t) + 2 && 2 <= x <= 2 * N(t) + 1
  {
    code[x] == code[Parent(t, x)] + [Side(t, x)]
  }

  // `code` gives every node the turns that lead to it from the root.
  ghost predicate Labels(t: Links, code: seq<Bits>)
    requires Linked(t)
  {
    && |code| == 2 * N(t) + 2
    && code[0] == []
    && code[ROOT] == []
    && forall x | 2 <= x <= 2 * N(t) + 1 :: Extends(t, code, x)
  }

  ghost predicate Valid(t: Links) {
    Linked(t) && exists code :: Labels(t, code)
  }

  lemma {:induction false} LabelsUnique(t: Links, c: seq<Bits>, c': seq<Bits>, x: int)
    requires Linked(t) && Labels(t, c) && Labels(t, c')
    requires 0 <= x <= 2 * N(t) + 1
    ensures c[x] == c'[x]
    decreases |c[x]|
  {
    if x >= 2 {
      assert HasParent(t, x) && Extends(t, c, x) && Extends(t, c', x);
      LabelsUnique(t, c, c', t.up[x]);
    }
  }

  // The codes of a valid tree; by LabelsUnique there is only one such sequence.
  ghost function Codes(t: Links): (code: seq<Bits>)
    requires Valid(t)
    ensures Labels(t, code)
  {
    var code :| Labels(t, code); code
  }

  ghost function Code(t: Links, x: int): (w: Bits)
    requires Valid(t) && Node(t, x)
    ensures x == ROOT ==> w == []
    ensures x != ROOT ==> |w| >= 1
  {
    var code := Codes(t);
    assert x != ROOT ==> Extends(t, code, x);
    code[x]
  }

  // The code of a node below the root, from its parent's.
  lemma CodeFromParent(t: Links, x: int)
    requires Valid(t) && 2 <= x <= 2 * N(t) + 1
    ensures HasParent(t, x)
    ensures Code(t, x) == Code(t, Parent(t, x)) + [Side(t, x)]
  {
    assert HasParent(t, x) && Extends(t, Codes(t), x);
  }

  // The code of a child, from its parent's.
  lemma CodeOfChild(t: Links, i: int)
    requires Valid(t) && 1 <= i <= N(t)
    ensures HasChildren(t, i)
    ensures Code(t, t.left[i]) == Code(t, i) + [false]
    ensures Code(t, t.right[i]) == Code(t, i) + [true]
  {
    assert HasChildren(t, i);
    CodeFromParent(t, t.left[i]);
    CodeFromParent(t, t.right[i]);
  }

  lemma CodesAre(t: Links, code: seq<Bits>)
    requires Linked(t) && Labels(t, code)
    ensures Valid(t) && Codes(t) == code
  {
    forall x | 0 <= x <= 2 * N(t) + 1 ensures Codes(t)[x] == code[x] {
      LabelsUnique(t, Codes(t), code, x);
    }
  }

  // ---- Consequences of having codes ----

  lemma {:induction false} CodesInjective(t: Links, x: int, y: int)
    requires Valid(t) && Node(t, x) && Node(t, y)
    requires Code(t, x) == Code(t, y)
    ensures x == y
    decreases |Code(t, x)|
  {
    if x != ROOT && y != ROOT {
      CodeFromParent(t, x);
      CodeFromParent(t, y);
      var p, q := t.up[x], t.up[y];
      assert Code(t, x)[..|Code(t, x)| - 1] == Code(t, p) && Code(t, y)[..|Code(t, y)| - 1] == Code(t, q);
      assert Code(t, x)[|Code(t, x)| - 1] == Side(t, x) && Code(t, y)[|Code(t, y)| - 1] == Side(t, y);
      CodesInjective(t, p, q);
    }
  }

  // Every proper prefix of a code is the code of an internal node.
  lemma {:induction false} PrefixIsInternal(t: Links, x: int, k: nat) returns (i: int)
    requires Valid(t) && Node(t, x) && k < |Code(t, x)|
    ensures 1 <= i <= N(t) && Code(t, i) == Code(t, x)[..k]
    decreases |Code(t, x)|
  {
    CodeFromParent(t, x);
    var p := t.up[x];
    if k == |Code(t, x)| - 1 {
      i := p;
    } else {
      i := PrefixIsInternal(t, p, k);
    }
  }

  // No leaf's code is a prefix of another leaf's: the code is uniquely decodable.
  lemma PrefixFree(t: Links, x: int, y: int)
    requires Valid(t) && Leaf(t, x) && Leaf(t, y)
    ensures Code(t, x) <= Code(t, y) <==> x == y
  {
    if Code(t, x) <= Code(t, y) {
      if |Code(t, x)| < |Code(t, y)| {
        var i := PrefixIsInternal(t, y, |Code(t, x)|);
        CodesInjective(t, i, x);
      } else {
        CodesInjective(t, x, y);
      }
    }
  }

  // The proper ancestors of x, as the nodes whose codes are proper prefixes of x's.
  lemma {:induction false} Ancestors(t: Links, x: int, k: nat) returns (s: set<int>)
    requires Valid(t) && Node(t, x) && k <= |Code(t, x)|
    ensures |s| == k
    ensures forall i | i in s :: 1 <= i <= N(t) && |Code(t, i)| < k
    decreases k
  {
    if k == 0 {
      s := {};
    } else {
      var i := PrefixIsInternal(t, x, k - 1);
      var s' := Ancestors(t, x, k - 1);
      s := s' + {i};
    }
  }

  lemma {:induction false} SubsetOfRange(s: set<int>, n: nat)
    requires forall i | i in s :: 1 <= i <= n
    ensures |s| <= n
    decreases n
  {
    if n == 0 {
      assert forall i :: i !in s;
    } else {
      SubsetOfRange(s - {n}, n - 1);
    }
  }

  // No path is longer than the number of internal nodes, so it fits the encoder's stack.
  lemma PathFits(t: Links, x: int)
    requires Valid(t) && Node(t, x)
    ensures |Code(t, x)| <= N(t)
  {
    var s := Ancestors(t, x, |Code(t, x)|);
    SubsetOfRange(s, N(t));
  }

  // ---- Walking down: what the decoder does with a stream of bits ----

  // The leaf reached from internal node a, and the bits left over.
  function Descend(t: Links, a: int, bits: Bits): (r: Option<(int, Bits)>)
    requires Linked(t) && 1 <= a <= N(t)
    ensures r.Some? ==> r.value.0 > N(t) && |r.value.1| < |bits|
    ensures r.Some? ==> r.value.1 == bits[|bits| - |r.value.1|..]
    decreases |bits|
  {
    if bits == [] then None
    else
      assert HasChildren(t, a);
      var next := if bits[0] then t.right[a] else t.left[a];
      if next > N(t) then Some((next, bits[1..])) else Descend(t, next, bits[1..])
  }

  lemma {:induction false} DescendFollowsCode(t: Links, x: int, a: int, rest: Bits)
    requires Valid(t) && Leaf(t, x) && 1 <= a <= N(t)
    requires Code(t, a) <= Code(t, x)
    ensures Descend(t, a, Code(t, x)[|Code(t, a)|..] + rest) == Some((x, rest))
    decreases |Code(t, x)| - |Code(t, a)|
  {
    var w, k := Code(t, x), |Code(t, a)|;
    if k == |w| {
      CodesInjective(t, a, x);
    }
    var bits := w[k..] + rest;
    var next := if bits[0] then t.right[a] else t.left[a];
    CodeOfChild(t, a);
    assert Code(t, next) == w[..k + 1];
    assert bits[1..] == w[k + 1..] + rest;
    if k + 1 == |w| {
      CodesInjective(t, next, x);
      assert bits[1..] == rest;
    } else {
      var i := PrefixIsInternal(t, x, k + 1);
      CodesInjective(t, i, next);
      DescendFollowsCode(t, x, next, rest);
    }
  }

  // Feeding a leaf's code to the root reaches that leaf and consumes exactly the code.
  lemma DescendDecodes(t: Links, x: int, rest: Bits)
    requires Valid(t) && Leaf(t, x)
    ensures Descend(t, ROOT, Code(t, x) + rest) == Some((x, rest))
  {
    DescendFollowsCode(t, x, ROOT, rest);
    assert Code(t, x)[0..] == Code(t, x);
  }

  // Walking down ends at a leaf.
  lemma {:induction false} DescendReachesLeaf(t: Links, a: int, bits: Bits)
    requires Linked(t) && 1 <= a <= N(t) && Descend(t, a, bits).Some?
    ensures Leaf(t, Descend(t, a, bits).value.0)
    decreases |bits|
  {
    assert HasChildren(t, a);
    var next := if bits[0] then t.right[a] else t.left[a];
    if next <= N(t) {
      DescendReachesLeaf(t, next, bits[1..]);
    }
  }

  // The bits a walk consumes are exactly what the leaf's code adds to the start's.
  lemma {:induction false} DescendConsumesCode(t: Links, a: int, bits: Bits)
    requires Valid(t) && 1 <= a <= N(t) && Descend(t, a, bits).Some?
    ensures var (x, rest) := Descend(t, a, bits).value;
            Leaf(t, x) && Code(t, a) + bits == Code(t, x) + rest
    decreases |bits|
  {
    DescendReachesLeaf(t, a, bits);
    CodeOfChild(t, a);
    var next := if bits[0] then t.right[a] else t.left[a];
    assert Code(t, a) + bits == Code(t, next) + bits[1..];
    if next <= N(t) {
      DescendConsumesCode(t, next, bits[1..]);
    }
  }

  // ---- One step of the semi-splay: node a changes places with its uncle ----

  // Node a has a parent and a grandparent.
  predicate Deep(t: Links, a: int) {
    Linked(t) && 2 <= a <= 2 * N(t) + 1 && Parent(t, a) != ROOT
  }

  function Grandparent(t: Links, a: int): (d: int)
    requires Deep(t, a)
    ensures 1 <= d <= N(t)
  {
    Parent(t, Parent(t, a))
  }

  function Uncle(t: Links, a: int): (b: int)
    requires Deep(t, a)
    ensures 2 <= b <= 2 * N(t) + 1
  {
    var c, d := Parent(t, a), Grandparent(t, a);
    assert HasChildren(t, d);
    if c == t.left[d] then t.right[d] else t.left[d]
  }

  function Lift(t: Links, a: int): (r: Links)
    requires Deep(t, a)
  {
    var c, d := Parent(t, a), Grandparent(t, a);
    assert HasChildren(t, c) && HasChildren(t, d);
    var b := Uncle(t, a);
    var t1 := if c == t.left[d] then t.(right := t.right[d := a]) else t.(left := t.left[d := a]);
    var t2 := if a == t1.left[c] then t1.(left := t1.left[c := b]) else t1.(right := t1.right[c := b]);
    t2.(up := t2.up[a := d][b := c])
  }

  // Exchanging the subtrees at p and q moves the node with code w to this code.
  function Exchange(w: Bits, p: Bits, q: Bits): (r: Bits) {
    if p <= w then q + w[|p|..]
    else if q <= w then p + w[|q|..]
    else w
  }

  ghost function Exchanged(code: seq<Bits>, p: Bits, q: Bits): (r: seq<Bits>)
    ensures |r| == |code|
    ensures forall x | 0 <= x < |code| :: r[x] == Exchange(code[x], p, q)
  {
    seq(|code|, x requires 0 <= x < |code| => Exchange(code[x], p, q))
  }

  // The parent, grandparent and uncle of a, and their codes.
  lemma FamilyCodes(t: Links, a: int)
    requires Valid(t) && Deep(t, a)
    ensures HasParent(t, a) && HasParent(t, Parent(t, a)) && HasParent(t, Uncle(t, a))
    ensures HasChildren(t, Parent(t, a)) && HasChildren(t, Grandparent(t, a))
    ensures var c, d := Parent(t, a), Grandparent(t, a); var b := Uncle(t, a);
            && b != a && b != c && b != d && c != d && a != c && a != d && 2 <= b <= 2 * N(t) + 1
            && Parent(t, b) == d
            && Code(t, c) == Code(t, d) + [Side(t, c)]
            && Code(t, b) == Code(t, d) + [!Side(t, c)]
            && Code(t, a) == Code(t, c) + [Side(t, a)]
  {
    CodeFromParent(t, a);
    CodeFromParent(t, Parent(t, a));
    CodeOfChild(t, Parent(t, a));
    CodeOfChild(t, Grandparent(t, a));
    CodeFromParent(t, Uncle(t, a));
  }

  // What a lift writes: the two child slots and the two parent links.
  lemma LiftWrites(t: Links, a: int)
    requires Valid(t) && Deep(t, a)
    ensures Sized(Lift(t, a)) && N(Lift(t, a)) == N(t)
    ensures var c, d := Parent(t, a), Grandparent(t, a); var b := Uncle(t, a); var t' := Lift(t, a);
            && t'.up == t.up[a := d][b := c]
            && (forall i | 0 <= i <= N(t) && i != c && i != d ::
                  t'.left[i] == t.left[i] && t'.right[i] == t.right[i])
            && t'.left[c] == (if Side(t, a) then t.left[c] else b)
            && t'.right[c] == (if Side(t, a) then b else t.right[c])
            && t'.left[d] == (if Side(t, c) then a else t.left[d])
            && t'.right[d] == (if Side(t, c) then t.right[d] else a)
  {
    FamilyCodes(t, a);
  }

  lemma LiftLinked(t: Links, a: int)
    requires Valid(t) && Deep(t, a)
    ensures Linked(Lift(t, a)) && N(Lift(t, a)) == N(t)
  {
    var t' := Lift(t, a);
    FamilyCodes(t, a);
    LiftWrites(t, a);
    forall x | 2 <= x <= 2 * N(t) + 1 ensures HasParent(t', x) {
      assert HasParent(t, x);
    }
    forall i | 1 <= i <= N(t) ensures HasChildren(t', i) {
      assert HasChildren(t, i);
    }
  }

  // Nodes other than the two that moved keep their parent and their side.
  lemma LiftKeepsSide(t: Links, a: int, x: int)
    requires Valid(t) && Deep(t, a)
    requires Linked(Lift(t, a)) && N(Lift(t, a)) == N(t)
    requires 2 <= x <= 2 * N(t) + 1 && x != a && x != Uncle(t, a)
    ensures Parent(Lift(t, a), x) == Parent(t, x) && Side(Lift(t, a), x) == Side(t, x)
  {
    FamilyCodes(t, a);
    LiftWrites(t, a);
    assert HasParent(t, x);
  }

  lemma Incomparable(w: Bits, y: bool, z: bool)
    ensures !(w + [y] + [z] <= w) && !(w + [y] + [z] <= w + [y])
    ensures !(w + [!y] <= w) && !(w + [!y] <= w + [y])
  {
    assert (w + [!y])[|w|] != (w + [y])[|w|];
  }

  lemma ExchangeChild(w: Bits, z: bool, p: Bits, q: Bits)
    requires w + [z] != p && w + [z] != q
    ensures Exchange(w + [z], p, q) == Exchange(w, p, q) + [z]
  {
    if p <= w + [z] {
      assert p <= w;
      assert (w + [z])[|p|..] == w[|p|..] + [z];
    } else if q <= w + [z] {
      assert q <= w;
      assert (w + [z])[|q|..] == w[|q|..] + [z];
    }
  }

  lemma ExchangeTops(p: Bits, q: Bits)
    ensures Exchange(p, p, q) == q
    ensures !(p <= q) ==> Exchange(q, p, q) == p
  {
    assert p[|p|..] == [] && q[|q|..] == [];
  }

  // A lift keeps the tree valid and exchanges the codes of the two subtrees.
  lemma LiftExchanges(t: Links, a: int)
    requires Valid(t) && Deep(t, a)
    ensures Valid(Lift(t, a)) && N(Lift(t, a)) == N(t)
    ensures Codes(Lift(t, a)) == Exchanged(Codes(t), Code(t, a), Code(t, Uncle(t, a)))
  {
    FamilyCodes(t, a);
    LiftLinked(t, a);
    LiftWrites(t, a);
    var code, b, c, d := Codes(t), Uncle(t, a), Parent(t, a), Grandparent(t, a);
    var p, q := code[a], code[b];
    var t', code' := Lift(t, a), Exchanged(Codes(t), code[a], code[b]);
    Incomparable(code[d], Side(t, c), Side(t, a));
    assert code'[c] == code[c] && code'[d] == code[d];
    forall x | 2 <= x <= 2 * N(t) + 1 ensures Extends(t', code', x) {
      if x == a || x == b {
        ExchangeTops(p, q);
      } else {
        CodeFromParent(t, x);
        if code[x] == p { CodesInjective(t, x, a); }
        if code[x] == q { CodesInjective(t, x, b); }
        LiftKeepsSide(t, a, x);
        ExchangeChild(code[Parent(t, x)], Side(t, x), p, q);
      }
    }
    CodesAre(t', code');
  }

  // ---- The whole semi-splay ----

  ghost function Splay(t: Links, a: int): (t': Links)
    requires Valid(t) && Node(t, a)
    ensures Valid(t') && N(t') == N(t)
    decreases |Code(t, a)|
  {
    if a == ROOT || Parent(t, a) == ROOT then t
    else
      LiftExchanges(t, a);
      FamilyCodes(t, a);
      Splay(Lift(t, a), Grandparent(t, a))
  }

  // Below the splayed node, codes get shorter by half the node's depth; elsewhere they
  // grow by at most one bit.
  lemma {:induction false} SplayLengths(t: Links, a: int, x: int)
    requires Valid(t) && Node(t, a) && Node(t, x)
    ensures Code(t, a) <= Code(t, x) ==>
              |Code(Splay(t, a), x)| == |Code(t, x)| - |Code(t, a)| / 2
    ensures |Code(Splay(t, a), x)| <= |Code(t, x)| + 1
    decreases |Code(t, a)|
  {
    if a != ROOT {
      CodeFromParent(t, a);
      if Parent(t, a) != ROOT {
        var d := Grandparent(t, a);
        var t' := Lift(t, a);
        LiftExchanges(t, a);
        FamilyCodes(t, a);
        SplayLengths(t', d, x);
        assert Code(t', d) == Code(t, d);
        assert Code(t', x) == Exchange(Code(t, x), Code(t, a), Code(t, Uncle(t, a)));
      }
    }
  }

  // Where splaying at code p moves the node with code w: two levels at a time, the node at p changes
  // places with its uncle.
  function SplayedCode(w: Bits, p: Bits): (r: Bits)
    decreases |p|
  {
    if |p| < 2 then w
    else
      var d := p[..|p| - 2];
      SplayedCode(Exchange(w, p, d + [!p[|p| - 2]]), d)
  }

  // Every second turn of a code, the other way; the first as it is if the length is odd.
  function Halved(p: Bits): (r: Bits)
    ensures |r| == (|p| + 1) / 2
    ensures forall i | 0 <= i < |r| ::
              r[i] == if |p| % 2 == 0 then !p[2 * i] else if i == 0 then p[0] else !p[2 * i - 1]
    decreases |p|
  {
    if |p| < 2 then p else Halved(p[..|p| - 2]) + [!p[|p| - 2]]
  }

  // Below the splayed node, its own part of the code is halved.
  lemma {:induction false} SplayedBelow(p: Bits, u: Bits)
    ensures SplayedCode(p + u, p) == Halved(p) + u
    decreases |p|
  {
    if |p| >= 2 {
      var d, b := p[..|p| - 2], !p[|p| - 2];
      ExchangeBelow(p, u, d, b);
      SplayedBelow(d, [b] + u);
      Regroup(Halved(d), b, u);
    }
  }

  lemma ExchangeBelow(p: Bits, u: Bits, d: Bits, b: bool)
    ensures Exchange(p + u, p, d + [b]) == d + ([b] + u)
  {
    assert (p + u)[|p|..] == u;
    Regroup(d, b, u);
  }

  lemma Regroup(a: Bits, b: bool, c: Bits)
    ensures a + [b] + c == a + ([b] + c)
  {
  }

  // The codes after one lift, by those before.
  lemma LiftCode(t: Links, a: int, x: int)
    requires Valid(t) && Deep(t, a) && Node(t, x)
    ensures Valid(Lift(t, a)) && N(Lift(t, a)) == N(t) && |Code(t, a)| >= 2
    ensures var p, d := Code(t, a), Grandparent(t, a);
            && Code(Lift(t, a), d) == p[..|p| - 2]
            && Code(Lift(t, a), x) == Exchange(Code(t, x), p, p[..|p| - 2] + [!p[|p| - 2]])
  {
    var d, p := Grandparent(t, a), Code(t, a);
    LiftExchanges(t, a);
    FamilyCodes(t, a);
    Incomparable(Code(t, d), Side(t, Parent(t, a)), Side(t, a));
    assert p[..|p| - 2] == Code(t, d);
    assert Code(t, Uncle(t, a)) == p[..|p| - 2] + [!p[|p| - 2]];
  }

  // The codes after a splay depend on nothing but the codes before.
  lemma {:induction false} SplayCodes(t: Links, a: int, x: int)
    requires Valid(t) && Node(t, a) && Node(t, x)
    ensures Code(Splay(t, a), x) == SplayedCode(Code(t, x), Code(t, a))
    decreases |Code(t, a)|
  {
    if a != ROOT {
      CodeFromParent(t, a);
      if Parent(t, a) != ROOT {
        LiftCode(t, a, x);
        SplayCodes(Lift(t, a), Grandparent(t, a), x);
      }
    }
  }

  // The splayed leaf ends up at half its depth, rounded up.
  lemma SplayHalves(t: Links, x: int)
    requires Valid(t) && Leaf(t, x)
    ensures |Code(Splay(t, x), x)| == (|Code(t, x)| + 1) / 2
    ensures forall y | Leaf(t, y) :: |Code(Splay(t, x), y)| <= |Code(t, y)| + 1
  {
    SplayLengths(t, x, x);
    forall y | Leaf(t, y) ensures |Code(Splay(t, x), y)| <= |Code(t, y)| + 1 {
      SplayLengths(t, x, y);
    }
  }

  // ---- The initial, heap-shaped tree ----

  function Heap(n: nat): (t: Links)
    requires n >= 1
    ensures N(t) == n
  {
    Links(seq(2 * n + 2, x => if x < 2 then 0 else x / 2),
          seq(n + 1, i => if i < 1 then 0 else 2 * i),
          seq(n + 1, i => if i < 1 then 0 else 2 * i + 1))
  }

  function HeapCode(x: nat): (r: Bits) {
    if x < 2 then [] else HeapCode(x / 2) + [x % 2 == 1]
  }

  lemma HeapValid(n: nat)
    requires n >= 1
    ensures Valid(Heap(n))
    ensures forall x | 1 <= x <= 2 * n + 1 :: Code(Heap(n), x) == HeapCode(x)
  {
    var code := seq(2 * n + 2, x requires 0 <= x => HeapCode(x));
    assert Linked(Heap(n));
    CodesAre(Heap(n), code);
  }
}
