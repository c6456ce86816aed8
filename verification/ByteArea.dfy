/** Items written and read one after the other in an area of memory (src/libc/mach/exec.c,
  src/libc/start.c). */
module ByteArea {
  import opened Words

  predicate Holds(a: seq<byte>, p: nat, s: seq<byte>) {
    p + |s| <= |a| && a[p..p + |s|] == s
  }

  // Of the area was, exactly the bytes from p on were replaced, by s.
  predicate Wrote(was: seq<byte>, a: seq<byte>, p: nat, s: seq<byte>) {
    |a| == |was| && Holds(a, p, s) && a[..p] == was[..p] && a[p + |s|..] == was[p + |s|..]
  }

  lemma WroteNothing(a: seq<byte>, p: nat)
    requires p <= |a|
    ensures Wrote(a, a, p, [])
  {
  }

  lemma Reassociate(a: seq<byte>, b: seq<byte>, c: seq<byte>)
    ensures a + b + c == a + (b + c)
  {
  }

  // Writing two items in sequence writes their concatenation.
  lemma WroteBoth(was: seq<byte>, a: seq<byte>, b: seq<byte>, p: nat, s: seq<byte>, t: seq<byte>)
    requires Wrote(was, a, p, s) && Wrote(a, b, p + |s|, t)
    ensures Wrote(was, b, p, s + t)
  {
    assert b[..p] == a[..p + |s|][..p] == was[..p];
    assert b[p..p + |s|] == a[..p + |s|][p..] == s;
    assert b[p..p + |s| + |t|] == b[p..p + |s|] + b[p + |s|..p + |s| + |t|];
    assert was[p + |s|..][|t|..] == was[p + |s| + |t|..];
    assert a[p + |s|..][|t|..] == a[p + |s| + |t|..];
  }

  // A concatenation is found in memory as its parts.
  lemma HoldsParts(a: seq<byte>, p: nat, s: seq<byte>, t: seq<byte>)
    requires Holds(a, p, s + t)
    ensures Holds(a, p, s) && Holds(a, p + |s|, t)
  {
    var r := a[p..p + |s| + |t|];
    assert r[..|s|] == s && r[|s|..] == t;
    assert a[p..p + |s|] == r[..|s|] && a[p + |s|..p + |s| + |t|] == r[|s|..];
  }

  // A string of the library and its terminator.
  predicate CString(s: seq<byte>) {
    0 !in s
  }

  function StringBytes(s: seq<byte>): (r: seq<byte>) {
    s + [0]
  }

  method PutWord(area: array<byte>, p: nat, v: ulong) returns (p': nat)
    requires p + 4 <= area.Length
    modifies area
    ensures p' == p + 4 && Wrote(old(area[..]), area[..], p, LongBytes(v))
  {
    var s := LongBytes(v);
    area[p], area[p + 1], area[p + 2], area[p + 3] := s[0], s[1], s[2], s[3];
    p' := p + 4;
  }

  method GetWord(area: array<byte>, p: nat, ghost v: ulong) returns (r: ulong, p': nat)
    requires Holds(area[..], p, LongBytes(v))
    ensures r == v && p' == p + 4
  {
    LongRoundTrip(v);
    assert area[p..p + 4] == area[..][p..p + 4];
    r := LongValue(area[p..p + 4]);
    p' := p + 4;
  }

  // bcopy of a string with its terminator.
  method PutString(area: array<byte>, p: nat, s: seq<byte>) returns (p': nat)
    requires p + |s| + 1 <= area.Length
    modifies area
    ensures p' == p + |StringBytes(s)| && Wrote(old(area[..]), area[..], p, StringBytes(s))
  {
    var t := StringBytes(s);
    ghost var was := area[..];
    for i := 0 to |t|
      invariant area[..] == was[..p] + t[..i] + was[p + i..]
    {
      area[p + i] := t[i];
      assert t[..i + 1] == t[..i] + [t[i]];
    }
    assert t[..|t|] == t;
    p' := p + |t|;
  }

  // strlen, and the copy of the string it finds.
  method GetString(area: array<byte>, p: nat, ghost s: seq<byte>) returns (r: seq<byte>, p': nat)
    requires CString(s) && Holds(area[..], p, StringBytes(s))
    ensures r == s && p' == p + |StringBytes(s)|
  {
    ghost var t := StringBytes(s);
    assert forall i | 0 <= i < |t| :: t[i] == area[..][p..p + |t|][i] == area[p + i];
    assert forall i | 0 <= i < |s| :: s[i] in s && t[i] == s[i];
    var len := 0;
    while area[p + len] != 0
      invariant len <= |s|
      decreases |s| - len
    {
      assert t[len] == area[p + len];
      len := len + 1;
    }
    assert area[p..p + len] == t[..len];
    r := area[p..p + len];
    p' := p + len + 1;
  }
}
