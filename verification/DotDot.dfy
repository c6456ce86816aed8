/** Removal of ".", ".." and empty elements from a path, in place (src/libc/open.c,
  __dotdot), against normalisation with a stack. */
module DotDot {

  const NUL := '\0'

  // ---- Paths as values ----

  // The number of characters before the next slash or the end.
  function Upto(s: string): (k: nat)
    ensures k <= |s| && (k < |s| ==> s[k] == '/')
    ensures forall i | 0 <= i < k :: s[i] != '/'
  {
    if s == [] || s[0] == '/' then 0 else 1 + Upto(s[1..])
  }

  predicate Absolute(s: string) {
    s != [] && s[0] == '/'
  }

  // The elements of a path: what follows each slash.
  function Elements(s: string): (es: seq<string>)
    requires s == [] || Absolute(s)
    ensures forall e | e in es :: '/' !in e
    decreases |s|
  {
    if s == [] then []
    else
      var k := Upto(s[1..]);
      [s[1..][..k]] + Elements(s[1..][k..])
  }

  function Slashed(es: seq<string>): (s: string)
    ensures s == [] || Absolute(s)
  {
    if es == [] then [] else "/" + es[0] + Slashed(es[1..])
  }

  // The path with these elements; the root if there are none.
  function Join(es: seq<string>): (s: string)
    ensures Absolute(s)
  {
    if es == [] then "/" else Slashed(es)
  }

  predicate Plain(e: string) {
    e != "" && e != "." && e != ".."
  }

  // The stack after the remaining elements: ".." takes off the top one if there is one.
  function Fold(stack: seq<string>, es: seq<string>): (r: seq<string>)
    requires forall e | e in stack :: Plain(e)
    ensures forall e | e in r :: Plain(e) && (e in stack || e in es)
    decreases |es|
  {
    if es == [] then stack
    else if es[0] == "" || es[0] == "." then Fold(stack, es[1..])
    else if es[0] == ".." then Fold(if stack == [] then [] else stack[..|stack| - 1], es[1..])
    else Fold(stack + [es[0]], es[1..])
  }

  // What a path is normalised to.
  function Normal(s: string): (r: string)
    requires Absolute(s)
    ensures Absolute(r)
  {
    Join(Fold([], Elements(s)))
  }

  lemma {:induction false} FoldPlain(stack: seq<string>, es: seq<string>)
    requires forall e | e in stack :: Plain(e)
    requires forall e | e in es :: Plain(e)
    ensures Fold(stack, es) == stack + es
    decreases |es|
  {
    if es != [] {
      assert es[0] in es;
      FoldPlain(stack + [es[0]], es[1..]);
      assert stack + [es[0]] + es[1..] == stack + es;
    }
  }

  // A string without slashes is all of it before the next slash.
  lemma {:induction false} UptoElement(e: string, rest: string)
    requires '/' !in e && (rest == [] || rest[0] == '/')
    ensures Upto(e + rest) == |e|
  {
    if e != [] {
      assert (e + rest)[0] == e[0] && e[0] in e;
      assert (e + rest)[1..] == e[1..] + rest;
      UptoElement(e[1..], rest);
    } else {
      assert e + rest == rest;
    }
  }

  lemma {:induction false} ElementsOfSlashed(es: seq<string>)
    requires forall e | e in es :: '/' !in e
    ensures Elements(Slashed(es)) == es
    decreases |es|
  {
    if es != [] {
      var s, rest := Slashed(es), Slashed(es[1..]);
      assert es[0] in es;
      assert s[1..] == es[0] + rest;
      UptoElement(es[0], rest);
      assert s[1..][..|es[0]|] == es[0] && s[1..][|es[0]|..] == rest;
      ElementsOfSlashed(es[1..]);
      assert [es[0]] + es[1..] == es;
    }
  }

  lemma {:induction false} SlashedElements(s: string)
    requires s == [] || Absolute(s)
    ensures Slashed(Elements(s)) == s
    decreases |s|
  {
    if s != [] {
      var k := Upto(s[1..]);
      var es := Elements(s);
      SlashedElements(s[1..][k..]);
      assert es[0] == s[1..][..k] && es[1..] == Elements(s[1..][k..]);
      assert s == "/" + s[1..][..k] + s[1..][k..];
    }
  }

  // A normalised path has only plain elements, and normalising it again changes nothing.
  lemma NormalIsClean(s: string)
    requires Absolute(s)
    ensures Normal(s) != "/" ==> forall e | e in Elements(Normal(s)) :: Plain(e) && e in Elements(s)
    ensures Normal(Normal(s)) == Normal(s)
  {
    var es := Fold([], Elements(s));
    forall e | e in es ensures '/' !in e {
      assert e in Elements(s);
    }
    if es == [] {
      assert "/"[1..] == [] && Elements("/") == [""] + Elements([]) == [""];
      assert [""][1..] == [];
      assert Fold([], [""]) == Fold([], []);
    } else {
      ElementsOfSlashed(es);
      FoldsToItself(es);
      assert Normal(s) == Slashed(es);
    }
  }

  lemma FoldsToItself(es: seq<string>)
    requires forall e | e in es :: Plain(e)
    ensures Fold([], es) == es
  {
    FoldPlain([], es);
    assert [] + es == es;
  }

  // A path with only plain elements is left as it is.
  lemma NormalOfPlain(s: string)
    requires Absolute(s) && forall e | e in Elements(s) :: Plain(e)
    ensures Normal(s) == s
  {
    FoldsToItself(Elements(s));
    SlashedElements(s);
  }

  // "/a/.." names what "/" does, wherever it stands.
  lemma {:induction false} UpUndoesDown(stack: seq<string>, a: string, es: seq<string>)
    requires (forall e | e in stack :: Plain(e)) && Plain(a)
    ensures Fold(stack, [a, ".."] + es) == Fold(stack, es)
  {
    var all := [a, ".."] + es;
    assert all[1..] == [".."] + es && all[1..][1..] == es;
    assert (stack + [a])[..|stack|] == stack;
  }

  // Empty elements and "." are as nothing, and at the root so is "..".
  lemma DotsVanish(stack: seq<string>, e: string, es: seq<string>)
    requires forall x | x in stack :: Plain(x)
    requires e == "" || e == "." || (e == ".." && stack == [])
    ensures Fold(stack, [e] + es) == Fold(stack, es)
  {
    assert ([e] + es)[1..] == es;
  }

  // "/../a" names what "/a" does.
  lemma UpFromRoot(s: string)
    requires Absolute(s)
    ensures Normal("/.." + s) == Normal(s)
  {
    assert ("/.." + s)[1..] == ".." + s;
    UptoElement("..", s);
    assert (".." + s)[..2] == ".." && (".." + s)[2..] == s;
    DotsVanish([], "..", Elements(s));
  }

  // How many levels deeper the elements from i up to j lead: less than nothing if they lead up.
  function Net(es: seq<string>, i: nat, j: nat): (n: int)
    requires i <= j <= |es|
    decreases j - i
  {
    if i == j then 0 else (if es[i] == ".." then -1 else if Plain(es[i]) then 1 else 0) + Net(es, i + 1, j)
  }

  // However many elements from i on are followed, they never lead up from where they begin.
  predicate NeverUp(es: seq<string>, i: nat)
    requires i <= |es|
  {
    forall j | i <= j <= |es| :: Net(es, i, j) >= 0
  }

  // Element i stays if it is plain and nothing after it ever leads above it.
  predicate Survives(es: seq<string>, i: nat)
    requires i < |es|
  {
    Plain(es[i]) && NeverUp(es, i + 1)
  }

  // Those that stay, from the i-th on.
  function Survivors(es: seq<string>, i: nat): (r: seq<string>)
    requires i <= |es|
    decreases |es| - i
  {
    if i == |es| then [] else (if Survives(es, i) then [es[i]] else []) + Survivors(es, i + 1)
  }

  // How far up the elements from i on lead at most.
  function Rise(es: seq<string>, i: nat): (n: nat)
    requires i <= |es|
    decreases |es| - i
  {
    if i == |es| then 0
    else
      var r := Rise(es, i + 1);
      if es[i] == ".." then r + 1 else if Plain(es[i]) && r > 0 then r - 1 else r
  }

  lemma {:induction false} RiseIs(es: seq<string>, i: nat)
    requires i <= |es|
    ensures Rise(es, i) == 0 || exists j | i <= j <= |es| :: Rise(es, i) == -Net(es, i, j)
    ensures forall j | i <= j <= |es| :: Rise(es, i) >= -Net(es, i, j)
    decreases |es| - i
  {
    if i < |es| {
      RiseIs(es, i + 1);
      if Rise(es, i + 1) > 0 {
        var j :| i < j <= |es| && Rise(es, i + 1) == -Net(es, i + 1, j);
        assert Rise(es, i) == 0 || Rise(es, i) == -Net(es, i, j);
      } else if es[i] == ".." {
        assert Rise(es, i) == -Net(es, i, i + 1);
      }
    }
  }

  lemma SurvivesIs(es: seq<string>, i: nat)
    requires i < |es|
    ensures Survives(es, i) <==> Plain(es[i]) && Rise(es, i + 1) == 0
  {
    RiseIs(es, i + 1);
  }

  // A stack without its n topmost elements.
  function Lower(stack: seq<string>, n: nat): (r: seq<string>) {
    if n <= |stack| then stack[..|stack| - n] else []
  }

  // The stack after one element.
  function Stepped(stack: seq<string>, e: string): (r: seq<string>) {
    if Plain(e) then stack + [e] else if e == ".." then Lower(stack, 1) else stack
  }

  lemma FoldStep(stack: seq<string>, es: seq<string>, i: nat)
    requires (forall e | e in stack :: Plain(e)) && i < |es|
    ensures forall e | e in Stepped(stack, es[i]) :: Plain(e)
    ensures Fold(stack, es[i..]) == Fold(Stepped(stack, es[i]), es[i + 1..])
  {
    assert es[i..][1..] == es[i + 1..];
  }

  // One element, and then n levels up before the elements that stay.
  lemma LowerStepped(stack: seq<string>, e: string, n: nat, stays: seq<string>)
    ensures Lower(Stepped(stack, e), n) + stays ==
            if Plain(e) && n == 0 then stack + ([e] + stays)
            else Lower(stack, if Plain(e) then n - 1 else if e == ".." then n + 1 else n) + stays
  {
    if Plain(e) && n == 0 {
      assert stack + [e] + stays == stack + ([e] + stays);
    } else if Plain(e) {
      assert Lower(stack + [e], n) == Lower(stack, n - 1);
    } else if e == ".." {
      assert Lower(Lower(stack, 1), n) == Lower(stack, n + 1);
    }
  }

  lemma SurvivorsFrom(es: seq<string>, i: nat)
    requires i < |es|
    ensures Survivors(es, i) ==
            if Plain(es[i]) && Rise(es, i + 1) == 0 then [es[i]] + Survivors(es, i + 1) else Survivors(es, i + 1)
  {
    SurvivesIs(es, i);
    assert [] + Survivors(es, i + 1) == Survivors(es, i + 1);
  }

  // The stack loses as many as the elements lead up, and gains those that stay.
  lemma {:induction false} FoldSurvivors(stack: seq<string>, es: seq<string>, i: nat)
    requires (forall e | e in stack :: Plain(e)) && i <= |es|
    ensures Fold(stack, es[i..]) == Lower(stack, Rise(es, i)) + Survivors(es, i)
    decreases |es| - i
  {
    if i < |es| {
      var e, n, stays := es[i], Rise(es, i + 1), Survivors(es, i + 1);
      FoldStep(stack, es, i);
      FoldSurvivors(Stepped(stack, e), es, i + 1);
      LowerStepped(stack, e, n, stays);
      SurvivorsFrom(es, i);
      assert Lower(stack, 0) == stack;
    }
  }

  // A path is normalised to the elements that stay, in their order, and to the root if none does.
  lemma NormalIs(s: string)
    requires Absolute(s)
    ensures Normal(s) == Join(Survivors(Elements(s), 0))
  {
    var es := Elements(s);
    assert es[0..] == es;
    FoldSurvivors([], es, 0);
    assert Lower([], Rise(es, 0)) + Survivors(es, 0) == Survivors(es, 0);
  }

  // ---- Paths in memory ----

  // The array holds the string s and its terminator.
  ghost predicate CString(path: seq<char>, s: string) {
    |s| < |path| && path[..|s|] == s && path[|s|] == NUL && NUL !in s
  }

  // The string e and its terminator are found at a.
  ghost predicate At(path: seq<char>, a: int, e: string) {
    0 <= a && a + |e| < |path| && path[a..a + |e|] == e && path[a + |e|] == NUL && NUL !in e
  }

  // Positions and strings of elements: each is after a slash of s and ends before the next
  // element begins.
  ghost predicate Ordered(elems: seq<int>, strs: seq<string>, n: nat) {
    && |elems| == |strs|
    && (forall i {:trigger InOrder(elems, strs, i, n)} | 0 <= i < |elems| :: InOrder(elems, strs, i, n))
  }

  predicate InOrder(elems: seq<int>, strs: seq<string>, i: int, n: nat)
    requires 0 <= i < |elems| == |strs|
  {
    && 1 <= elems[i] && elems[i] + |strs[i]| <= n
    && (i > 0 ==> elems[i - 1] + |strs[i - 1]| < elems[i])
  }

  ghost predicate AllAt(path: seq<char>, elems: seq<int>, strs: seq<string>, from: nat) {
    && |elems| == |strs|
    && forall i {:trigger At(path, elems[i], strs[i])} | from <= i < |elems| :: At(path, elems[i], strs[i])
  }

  // s with the slashes before k replaced by terminators.
  ghost predicate Nulled(path: seq<char>, s: string, k: int)
    requires |s| < |path|
  {
    forall j | 0 <= j < |s| :: path[j] == if j < k && s[j] == '/' then NUL else s[j]
  }

  // Positions and strings of the elements found so far, up to the slash or end at k.
  ghost predicate Marked(s: string, elems: seq<int>, strs: seq<string>, k: nat)
    requires k <= |s|
  {
    && |elems| == |strs|
    && (k < |s| ==> s[k] == '/')
    && (forall i {:trigger IsElement(s, elems, strs, i, k)} | 0 <= i < |elems| :: IsElement(s, elems, strs, i, k))
    && (elems == [] ==> k == 0)
  }

  ghost predicate IsElement(s: string, elems: seq<int>, strs: seq<string>, i: int, k: nat)
    requires 0 <= i < |elems| == |strs| && k <= |s|
    requires k < |s| ==> s[k] == '/'
  {
    var a, b := elems[i], elems[i] + |strs[i]|;
    && 1 <= a <= b <= k && s[a..b] == strs[i] && '/' !in strs[i]
    && (if i + 1 < |elems| then b + 1 == elems[i + 1] else b == k)
    && a == (if i == 0 then 1 else elems[i - 1] + |strs[i - 1]| + 1)
    && (b < |s| ==> s[b] == '/')
  }

  lemma {:induction false} SlashedAppend(es: seq<string>, e: string)
    ensures Slashed(es + [e]) == Slashed(es) + "/" + e
  {
    if es == [] {
      assert ([e])[1..] == [];
      assert Slashed([e]) == "/" + e + Slashed([]);
    } else {
      assert (es + [e])[1..] == es[1..] + [e];
      SlashedAppend(es[1..], e);
      assert "/" + es[0] + (Slashed(es[1..]) + "/" + e) == "/" + es[0] + Slashed(es[1..]) + "/" + e;
    }
  }

  // One more element reaches the next slash or the end.
  lemma FindNext(s: string, strs: seq<string>, k: nat)
    requires k < |s| && s[k] == '/' && Slashed(strs) == s[..k]
    ensures var d := Upto(s[k + 1..]); Slashed(strs + [s[k + 1..][..d]]) == s[..k + 1 + d]
  {
    var d := Upto(s[k + 1..]);
    SlashedAppend(strs, s[k + 1..][..d]);
    assert s[..k + 1 + d] == s[..k] + "/" + s[k + 1..][..d];
  }

  lemma MarkNext(s: string, elems: seq<int>, strs: seq<string>, k: nat)
    requires k < |s| && s[k] == '/' && Marked(s, elems, strs, k)
    ensures var d := Upto(s[k + 1..]);
            Marked(s, elems + [k + 1], strs + [s[k + 1..][..d]], k + 1 + d)
  {
    var d := Upto(s[k + 1..]);
    var e, k' := s[k + 1..][..d], k + 1 + d;
    var elems', strs' := elems + [k + 1], strs + [e];
    assert k' < |s| ==> s[k'] == s[k + 1..][d];
    assert s[k + 1..k'] == e;
    forall i | 0 <= i < |elems'| ensures IsElement(s, elems', strs', i, k') {
      if i < |elems| {
        assert IsElement(s, elems, strs, i, k);
      } else {
        assert i > 0 ==> IsElement(s, elems, strs, i - 1, k);
      }
    }
  }

  // Once all slashes are terminators, every element is a string in memory.
  lemma FoundAt(path: seq<char>, s: string, elems: seq<int>, strs: seq<string>)
    requires |s| < |path| && path[|s|] == NUL && NUL !in s && Nulled(path, s, |s|) && Marked(s, elems, strs, |s|)
    ensures AllAt(path, elems, strs, 0) && Ordered(elems, strs, |s|)
  {
    forall i | 0 <= i < |elems| ensures At(path, elems[i], strs[i]) && InOrder(elems, strs, i, |s|) {
      assert IsElement(s, elems, strs, i, |s|);
      var a, b := elems[i], elems[i] + |strs[i]|;
      forall j | a <= j < b ensures path[j] == s[j] {
        assert s[j] == strs[i][j - a] && strs[i][j - a] in strs[i];
      }
      assert path[a..b] == s[a..b];
      assert forall c | c in strs[i] :: c in s;
    }
  }

  // strchr
  method StrChr(path: array<char>, p: nat, ghost s: string) returns (q: nat)
    requires |s| < path.Length && path[|s|] == NUL && NUL !in s && p <= |s|
    requires forall j | p <= j < |s| :: path[j] == s[j]
    ensures q == p + Upto(s[p..])
  {
    q := p;
    ghost var t := s[p..];
    while path[q] != '/' && path[q] != NUL
      invariant p <= q <= |s| && forall j | p <= j < q :: s[j] != '/'
      decreases |s| - q
    {
      q := q + 1;
    }
    assert q < |s| ==> s[q] in s;
    UptoIs(t, q - p);
  }

  lemma {:induction false} UptoIs(t: string, k: nat)
    requires k <= |t| && (k < |t| ==> t[k] == '/') && forall i | 0 <= i < k :: t[i] != '/'
    ensures Upto(t) == k
  {
    if k > 0 {
      UptoIs(t[1..], k - 1);
    }
  }

  // The first loop of __dotdot.
  method MapElements(path: array<char>, ghost s: string) returns (elems: seq<int>, ghost strs: seq<string>)
    requires CString(path[..], s) && Absolute(s)
    modifies path
    ensures strs == Elements(s) && Marked(s, elems, strs, |s|)
    ensures path[|s|] == NUL && Nulled(path[..], s, |s|)
    ensures forall j | |s| < j < path.Length :: path[j] == old(path[j])
  {
    elems, strs := [], [];
    assert forall j | 0 <= j < |s| :: path[j] == path[..|s|][j];
    assert s[0..] == s;
    UptoIs(s, 0);
    var k := StrChr(path, 0, s);
    while path[k] == '/'
      invariant k <= |s| && path[|s|] == NUL && Slashed(strs) == s[..k]
      invariant Marked(s, elems, strs, k) && Nulled(path[..], s, k)
      invariant forall j | |s| < j < path.Length :: path[j] == old(path[j])
      decreases |s| - k
    {
      FindNext(s, strs, k);
      MarkNext(s, elems, strs, k);
      ghost var e := s[k + 1..][..Upto(s[k + 1..])];
      elems, strs := elems + [k + 1], strs + [e];
      k := CutAt(path, k, s);
    }
    assert path[k] == path[..][k];
    assert s[..|s|] == s;
    MarkedElements(s, elems, strs);
  }

  lemma MarkedElements(s: string, elems: seq<int>, strs: seq<string>)
    requires Absolute(s) && Marked(s, elems, strs, |s|) && Slashed(strs) == s
    ensures strs == Elements(s)
  {
    forall e | e in strs ensures '/' !in e {
      var i :| 0 <= i < |strs| && strs[i] == e;
      assert IsElement(s, elems, strs, i, |s|);
    }
    ElementsOfSlashed(strs);
  }

  // The body of that loop: the slash at k becomes a terminator, and the next one is found.
  method CutAt(path: array<char>, k: nat, ghost s: string) returns (k': nat)
    requires k < |s| < path.Length && path[|s|] == NUL && NUL !in s && s[k] == '/' && Nulled(path[..], s, k)
    modifies path
    ensures k' == k + 1 + Upto(s[k + 1..]) && path[|s|] == NUL && Nulled(path[..], s, k')
    ensures forall j | |s| < j < path.Length :: path[j] == old(path[j])
  {
    assert forall j | 0 <= j < |s| :: path[j] == path[..][j];
    path[k] := NUL;
    k' := StrChr(path, k + 1, s);
    assert forall j | k < j < k' :: s[j] == s[k + 1..][j - k - 1];
  }

  // strcmp, as a test for equality.
  method StrEq(path: array<char>, p: nat, w: string, ghost e: string) returns (eq: bool)
    requires At(path[..], p, e) && NUL !in w
    ensures eq == (e == w)
  {
    var i := 0;
    assert forall j | 0 <= j < |e| :: path[p + j] == path[..][p..p + |e|][j] == e[j];
    while i < |w| && path[p + i] == w[i]
      invariant i <= |w| && i <= |e| && e[..i] == w[..i]
      decreases |w| - i
    {
      assert w[i] in w;
      i := i + 1;
    }
    eq := i == |w| && path[p + i] == NUL;
    assert e == e[..|e|] && w == w[..|w|];
    assert i < |e| ==> e[i] in e;
  }

  function Without<T>(q: seq<T>, x: nat): (r: seq<T>)
    requires x < |q|
    ensures |r| == |q| - 1
    ensures forall i | 0 <= i < |r| :: r[i] == if i < x then q[i] else q[i + 1]
  {
    q[..x] + q[x + 1..]
  }

  lemma OneRemoved(path: seq<char>, elems: seq<int>, strs: seq<string>, x: nat, n: nat)
    requires AllAt(path, elems, strs, 0) && Ordered(elems, strs, n) && x < |elems|
    ensures AllAt(path, Without(elems, x), Without(strs, x), 0)
    ensures Ordered(Without(elems, x), Without(strs, x), n)
    ensures Without(strs, x)[..x] == strs[..x] && Without(strs, x)[x..] == strs[x..][1..]
  {
    var elems', strs' := Without(elems, x), Without(strs, x);
    forall i | 0 <= i < |elems'| ensures At(path, elems'[i], strs'[i]) && InOrder(elems', strs', i, n) {
      assert At(path, elems[i], strs[i]) && At(path, elems[i + 1], strs[i + 1]);
      assert InOrder(elems, strs, i, n) && InOrder(elems, strs, i + 1, n);
    }
  }

  // What the rest of the loop is to do with the elements from x on, those before being kept.
  ghost predicate FoldsTo(strs: seq<string>, x: nat, r: seq<string>) {
    x <= |strs| && (forall e | e in strs[..x] :: Plain(e)) && Fold(strs[..x], strs[x..]) == r
  }

  // The second loop of __dotdot.
  method FoldElements(path: array<char>, elems0: seq<int>, ghost strs0: seq<string>, ghost n: nat)
    returns (elems: seq<int>, ghost strs: seq<string>, hadDot: bool)
    requires AllAt(path[..], elems0, strs0, 0) && Ordered(elems0, strs0, n)
    ensures AllAt(path[..], elems, strs, 0) && Ordered(elems, strs, n)
    ensures strs == Fold([], strs0)
    ensures !hadDot ==> elems == elems0 && strs == strs0
  {
    var x := 0;
    elems, strs, hadDot := elems0, strs0, false;
    assert strs[..0] == [] && strs[0..] == strs;
    while x < |elems|
      invariant x <= |elems| && AllAt(path[..], elems, strs, 0) && Ordered(elems, strs, n)
      invariant FoldsTo(strs, x, Fold([], strs0))
      invariant !hadDot ==> elems == elems0 && strs == strs0
      decreases |elems| - x
    {
      var dot, dotdot;
      dot, dotdot := Looks(path, elems[x], strs[x]);
      if dot {
        hadDot := true;
        OneRemoved(path[..], elems, strs, x, n);
        elems, strs := Without(elems, x), Without(strs, x);
      } else if !dotdot {
        Kept(strs, x);
        x := x + 1;
      } else if x == 0 {
        hadDot := true;
        OneRemoved(path[..], elems, strs, x, n);
        elems, strs := Without(elems, 0), Without(strs, 0);
      } else {
        hadDot := true;
        x := x - 1;
        TwoRemoved(path[..], elems, strs, x, n);
        elems, strs := elems[..x] + elems[x + 2..], strs[..x] + strs[x + 2..];
      }
    }
    assert strs[..x] == strs && strs[x..] == [];
  }

  method Looks(path: array<char>, p: int, ghost e: string) returns (dot: bool, dotdot: bool)
    requires At(path[..], p, e)
    ensures dot == (e == "" || e == ".") && dotdot == (e == "..")
  {
    assert path[p] == path[..][p];
    assert e != "" ==> path[..][p..p + |e|][0] == e[0] && e[0] in e;
    dot := path[p] == NUL;
    if !dot {
      dot := StrEq(path, p, ".", e);
    }
    dotdot := StrEq(path, p, "..", e);
  }

  lemma Kept(strs: seq<string>, x: nat)
    requires x < |strs| && Plain(strs[x])
    requires forall e | e in strs[..x] :: Plain(e)
    ensures Fold(strs[..x], strs[x..]) == Fold(strs[..x + 1], strs[x + 1..])
    ensures forall e | e in strs[..x + 1] :: Plain(e)
  {
    assert strs[..x] + [strs[x]] == strs[..x + 1];
    assert strs[x..][1..] == strs[x + 1..];
  }

  lemma TwoRemoved(path: seq<char>, elems: seq<int>, strs: seq<string>, x: nat, n: nat)
    requires AllAt(path, elems, strs, 0) && Ordered(elems, strs, n) && x + 1 < |elems|
    requires (forall e | e in strs[..x + 1] :: Plain(e)) && strs[x + 1] == ".."
    ensures AllAt(path, elems[..x] + elems[x + 2..], strs[..x] + strs[x + 2..], 0)
    ensures Ordered(elems[..x] + elems[x + 2..], strs[..x] + strs[x + 2..], n)
    ensures FoldsTo(strs[..x] + strs[x + 2..], x, Fold(strs[..x + 1], strs[x + 1..]))
  {
    OneRemoved(path, elems, strs, x, n);
    OneRemoved(path, Without(elems, x), Without(strs, x), x, n);
    assert Without(Without(elems, x), x) == elems[..x] + elems[x + 2..];
    var strs' := strs[..x] + strs[x + 2..];
    assert Without(Without(strs, x), x) == strs';
    assert strs[..x + 1][..x] == strs[..x] == strs'[..x];
    assert strs[x + 1..][1..] == strs[x + 2..] == strs'[x..];
    assert forall e | e in strs'[..x] :: e in strs[..x + 1];
  }

  // ---- Writing the result ----

  // Where the slashes before the elements from x on are still missing.
  function Front(elems: seq<int>, x: nat, n: nat): (r: int) {
    if x < |elems| then elems[x] - 1 else n
  }

  // When nothing was removed, the slashes are put back.
  method RestoreSlashes(path: array<char>, elems: seq<int>, ghost strs: seq<string>, ghost s: string)
    requires |s| < path.Length && path[|s|] == NUL && NUL !in s && Absolute(s)
    requires Nulled(path[..], s, |s|) && Marked(s, elems, strs, |s|)
    modifies path
    ensures CString(path[..], s)
    ensures forall j | |s| < j < path.Length :: path[j] == old(path[j])
  {
    var x := 0;
    assert forall j | 0 <= j < |s| :: path[j] == path[..][j];
    assert IsElement(s, elems, strs, 0, |s|);
    while x < |elems|
      invariant x <= |elems| && path[|s|] == NUL
      invariant forall j | 0 <= j < |s| :: path[j] == if j >= Front(elems, x, |s|) && s[j] == '/' then NUL else s[j]
      invariant forall j | |s| < j < path.Length :: path[j] == old(path[j])
    {
      NoSlashUntil(s, elems, strs, x);
      path[elems[x] - 1] := '/';
      x := x + 1;
    }
    assert path[..|s|] == s;
  }

  lemma NoSlashUntil(s: string, elems: seq<int>, strs: seq<string>, x: nat)
    requires x < |elems| && Marked(s, elems, strs, |s|) && Absolute(s)
    ensures 1 <= elems[x] <= Front(elems, x + 1, |s|) <= |s| && s[elems[x] - 1] == '/'
    ensures forall j | elems[x] <= j < Front(elems, x + 1, |s|) :: s[j] != '/'
  {
    assert IsElement(s, elems, strs, x, |s|);
    assert x > 0 ==> IsElement(s, elems, strs, x - 1, |s|);
    forall j | elems[x] <= j < Front(elems, x + 1, |s|) ensures s[j] != '/' {
      assert s[j] == strs[x][j - elems[x]] && strs[x][j - elems[x]] in strs[x];
    }
  }

  // bcopy to the left, a byte at a time.
  method CopyLeft(path: array<char>, src: nat, dst: nat, len: nat)
    requires dst <= src && src + len <= path.Length
    modifies path
    ensures path[dst..dst + len] == old(path[src..src + len])
    ensures forall j | 0 <= j < path.Length && !(dst <= j < dst + len) :: path[j] == old(path[j])
  {
    ghost var was := path[..];
    for i := 0 to len
      invariant path[dst..dst + i] == was[src..src + i]
      invariant forall j | 0 <= j < path.Length && !(dst <= j < dst + i) :: path[j] == old(path[j])
    {
      path[dst + i] := path[src + i];
      assert path[dst..dst + i + 1] == path[dst..dst + i] + [was[src + i]];
    }
  }

  method StrLen(path: array<char>, p: int, ghost e: string) returns (len: nat)
    requires At(path[..], p, e)
    ensures len == |e|
  {
    len := 0;
    assert forall j | 0 <= j < |e| :: path[p + j] == path[..][p..p + |e|][j] && e[j] in e;
    while path[p + len] != NUL
      invariant len <= |e|
      decreases |e| - len
    {
      len := len + 1;
    }
  }

  lemma {:induction false} Later(elems: seq<int>, strs: seq<string>, i: nat, j: nat, n: nat)
    requires Ordered(elems, strs, n) && i < j < |elems|
    ensures elems[i] + |strs[i]| < elems[j]
  {
    assert InOrder(elems, strs, j, n);
    if i < j - 1 {
      assert InOrder(elems, strs, j - 1, n);
      Later(elems, strs, i, j - 1, n);
    }
  }

  // The elements still to be read do not notice writes before them.
  lemma Unread(before: seq<char>, path: seq<char>, elems: seq<int>, strs: seq<string>, x: nat, n: nat)
    requires AllAt(before, elems, strs, x) && Ordered(elems, strs, n) && x < |elems| && |before| == |path|
    requires 0 <= elems[x] && forall j | elems[x] + |strs[x]| <= j < |path| :: path[j] == before[j]
    ensures AllAt(path, elems, strs, x + 1)
  {
    forall i | x + 1 <= i < |elems| ensures At(path, elems[i], strs[i]) {
      Later(elems, strs, x, i, n);
      assert At(before, elems[i], strs[i]);
      assert path[elems[i]..elems[i] + |strs[i]|] == before[elems[i]..elems[i] + |strs[i]|];
    }
  }

  // The last loop of __dotdot.
  method Rebuild(path: array<char>, elems: seq<int>, ghost strs: seq<string>, ghost n: nat) returns (pos: nat)
    requires AllAt(path[..], elems, strs, 0) && Ordered(elems, strs, n) && n < path.Length
    modifies path
    ensures pos == |Slashed(strs)| <= n && path[..pos] == Slashed(strs)
    ensures forall j | n < j < path.Length :: path[j] == old(path[j])
  {
    pos := 0;
    var x := 0;
    assert elems != [] ==> InOrder(elems, strs, 0, n);
    while x < |elems|
      invariant x <= |elems| && pos <= Front(elems, x, n) && (x < |elems| ==> elems[x] <= n)
      invariant pos == |Slashed(strs[..x])| && path[..pos] == Slashed(strs[..x])
      invariant AllAt(path[..], elems, strs, x)
      invariant forall j | n < j < path.Length :: path[j] == old(path[j])
    {
      assert InOrder(elems, strs, x, n);
      assert x + 1 < |elems| ==> InOrder(elems, strs, x + 1, n);
      SlashedAppend(strs[..x], strs[x]);
      assert strs[..x] + [strs[x]] == strs[..x + 1];
      ghost var before := path[..];
      pos := CopyElement(path, elems[x], pos, strs[x]);
      Unread(before, path[..], elems, strs, x, n);
      x := x + 1;
    }
    assert strs[..x] == strs;
  }

  method CopyElement(path: array<char>, p: int, pos: nat, ghost e: string) returns (pos': nat)
    requires At(path[..], p, e) && pos < p
    modifies path
    ensures pos' == pos + 1 + |e| && path[..pos'] == old(path[..pos]) + "/" + e
    ensures forall j | pos' <= j < path.Length :: path[j] == old(path[j])
  {
    path[pos] := '/';
    assert At(path[..], p, e) by {
      assert path[..][p..p + |e|] == old(path[..])[p..p + |e|];
    }
    var len := StrLen(path, p, e);
    assert path[p..p + len] == path[..][p..p + len] == e;
    CopyLeft(path, p, pos + 1, len);
    pos' := pos + 1 + len;
    assert path[..pos'] == path[..pos] + [path[pos]] + path[pos + 1..pos'];
    assert path[..pos] == old(path[..pos]);
  }

  // __dotdot
  method DotDot(path: array<char>, ghost s: string)
    requires CString(path[..], s) && Absolute(s)
    modifies path
    ensures CString(path[..], Normal(s)) && |Normal(s)| <= |s|
    ensures forall j | |s| < j < path.Length :: path[j] == old(path[j])
  {
    var elems, hadDot;
    ghost var strs0, strs;
    elems, strs0 := MapElements(path, s);
    FoundAt(path[..], s, elems, strs0);
    ghost var marked := elems;
    elems, strs, hadDot := FoldElements(path, elems, strs0, |s|);
    if !hadDot {
      FoldsFrom(strs0);
      NormalOfPlain(s);
      RestoreSlashes(path, elems, strs, s);
    } else {
      var pos := 0;
      if |elems| < 1 {
        path[0] := '/';
        pos := 1;
      } else {
        pos := Rebuild(path, elems, strs, |s|);
      }
      path[pos] := NUL;
      assert path[..pos] == Normal(s);
      NormalHasNoNul(s);
    }
  }

  lemma FoldsFrom(es: seq<string>)
    requires Fold([], es) == es
    ensures forall e | e in es :: Plain(e)
  {
    assert forall e | e in Fold([], es) :: Plain(e);
  }

  lemma {:induction false} ElementsFrom(s: string, c: char)
    requires s == [] || Absolute(s)
    requires c !in s
    ensures forall e | e in Elements(s) :: c !in e
    decreases |s|
  {
    if s != [] {
      var k := Upto(s[1..]);
      ElementsFrom(s[1..][k..], c);
    }
  }

  lemma {:induction false} SlashedFrom(es: seq<string>, c: char)
    requires c != '/' && forall e | e in es :: c !in e
    ensures c !in Slashed(es)
  {
    if es != [] {
      assert es[0] in es;
      SlashedFrom(es[1..], c);
    }
  }

  lemma NormalHasNoNul(s: string)
    requires Absolute(s) && NUL !in s
    ensures NUL !in Normal(s)
  {
    ElementsFrom(s, NUL);
    SlashedFrom(Fold([], Elements(s)), NUL);
  }
}
