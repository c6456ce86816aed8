/** The names of a makefile and their dependencies, and the search for circles among them
  (src/bin.src/make/h.h, check.c). */
module DependencyGraph {
  import opened Options

  // A file to be made or used. The time of the file, if there is one, is what stat finds when
  // make first looks at it.
  class Name {
    var lines: seq<seq<Name>>
    var mark: bool
    var done: bool
    var time: nat
    const target: bool
    const stamp: Option<nat>

    constructor (target: bool, stamp: Option<nat>)
      ensures lines == [] && !mark && !done && time == 0
      ensures this.target == target && this.stamp == stamp
    {
      lines, mark, done, time := [], false, false, 0;
      this.target, this.stamp := target, stamp;
    }
  }

  // The dependencies of each name, line by line.
  type Graph = map<Name, seq<seq<Name>>>

  ghost predicate Represents(g: Graph)
    reads g.Keys
  {
    forall n | n in g :: n.lines == g[n]
  }

  function Flat(lines: seq<seq<Name>>): (ds: seq<Name>) {
    if lines == [] then [] else Flat(lines[..|lines| - 1]) + lines[|lines| - 1]
  }

  lemma {:induction false} FlatHolds(lines: seq<seq<Name>>, i: nat, d: Name)
    requires i < |lines| && d in lines[i]
    ensures d in Flat(lines)
  {
    if i < |lines| - 1 {
      FlatHolds(lines[..|lines| - 1], i, d);
    }
  }

  ghost predicate Edge(g: Graph, n: Name, d: Name) {
    n in g && d in g && d in Flat(g[n])
  }

  ghost predicate Closed(g: Graph) {
    forall n, d | n in g && d in Flat(g[n]) :: d in g
  }

  // ---- Paths ----

  ghost predicate Path(g: Graph, older p: seq<Name>) {
    && p != [] && (forall i | 0 <= i < |p| :: p[i] in g)
    && (forall i {:trigger Step(g, p, i)} | 1 <= i < |p| :: Step(g, p, i))
  }

  ghost predicate Step(g: Graph, p: seq<Name>, i: nat)
    requires 1 <= i < |p|
  {
    Edge(g, p[i - 1], p[i])
  }

  predicate Distinct(p: seq<Name>) {
    forall i, j | 0 <= i < j < |p| :: p[i] != p[j]
  }

  ghost predicate Acyclic(g: Graph) {
    forall p {:trigger Path(g, p)} | Path(g, p) :: Distinct(p)
  }

  // A path of at least one step that comes back to its start.
  ghost predicate Circle(g: Graph, older p: seq<Name>) {
    |p| > 1 && Path(g, p) && p[0] == p[|p| - 1]
  }

  lemma Part(g: Graph, p: seq<Name>, a: nat, b: nat)
    requires Path(g, p) && a < b <= |p|
    ensures Path(g, p[a..b])
  {
    assert a > 0 ==> Step(g, p, a);
    forall i | 1 <= i < b - a ensures Step(g, p[a..b], i) {
      assert Step(g, p, a + i);
    }
  }

  lemma Extended(g: Graph, p: seq<Name>, d: Name)
    requires Path(g, p) && Edge(g, p[|p| - 1], d)
    ensures Path(g, p + [d])
  {
    forall i | 1 <= i < |p + [d]| ensures Step(g, p + [d], i) {
      assert i < |p| ==> Step(g, p, i);
    }
  }

  lemma Preceded(g: Graph, n: Name, p: seq<Name>)
    requires Path(g, p) && Edge(g, n, p[0])
    ensures Path(g, [n] + p)
  {
    forall i | 1 <= i < |[n] + p| ensures Step(g, [n] + p, i) {
      assert i > 1 ==> Step(g, p, i - 1);
    }
  }

  // There is no path through a name twice exactly when there is no circle.
  lemma AcyclicMeansNoCircle(g: Graph)
    ensures Acyclic(g) <==> !exists p :: Circle(g, p)
  {
    if exists p :: Circle(g, p) {
      var p :| Circle(g, p);
      assert Path(g, p) && !Distinct(p);
    }
    if p :| Path(g, p) && !Distinct(p) {
      var i, j :| 0 <= i < j < |p| && p[i] == p[j];
      Part(g, p, i, j + 1);
      assert Circle(g, p[i..j + 1]);
    }
  }

  // A path without repetition is no longer than the graph is large.
  lemma {:induction false} DistinctIsShort(p: seq<Name>, names: set<Name>)
    requires Distinct(p) && forall n | n in p :: n in names
    ensures |p| <= |names|
  {
    if p != [] {
      var last := p[|p| - 1];
      assert last in p;
      DistinctIsShort(p[..|p| - 1], names - {last});
    }
  }

  // ---- The search ----

  ghost function Marked(g: Graph): (m: set<Name>)
    reads g.Keys
  {
    set n | n in g && n.mark
  }

  // Every path from n avoids the marked names and never meets a name twice.
  ghost predicate Clear(g: Graph, n: Name, marks: set<Name>) {
    forall p {:trigger Path(g, p)} | Path(g, p) && p[0] == n :: Avoids(p, marks)
  }

  ghost predicate Avoids(p: seq<Name>, marks: set<Name>) {
    Distinct(p) && forall n | n in p :: n !in marks
  }

  lemma ClearFromParts(g: Graph, n: Name, marks: set<Name>)
    requires n in g && n !in marks && Closed(g)
    requires forall d | d in Flat(g[n]) :: Clear(g, d, marks + {n})
    ensures Clear(g, n, marks)
  {
    forall p | Path(g, p) && p[0] == n ensures Avoids(p, marks) {
      if |p| > 1 {
        assert Step(g, p, 1);
        var q := p[1..];
        Part(g, p, 1, |p|);
        assert p[1..|p|] == q && q[0] == p[1] && Clear(g, p[1], marks + {n});
        forall i | 1 <= i < |p| ensures p[i] !in marks && p[i] != n {
          assert p[i] == q[i - 1] && q[i - 1] in q;
        }
        assert forall i, j | 1 <= i < j < |p| :: p[i] == q[i - 1] && p[j] == q[j - 1];
      }
    }
  }

  lemma PartsOfClear(g: Graph, n: Name, d: Name, marks: set<Name>)
    requires Clear(g, n, marks) && Edge(g, n, d)
    ensures Clear(g, d, marks + {n})
  {
    forall p | Path(g, p) && p[0] == d ensures Avoids(p, marks + {n}) {
      Preceded(g, n, p);
      var q := [n] + p;
      assert Avoids(q, marks);
      assert forall i | 0 <= i < |p| :: p[i] == q[i + 1];
      assert forall m | m in p :: m in q && m != q[0];
    }
  }

  lemma NotClear(g: Graph, n: Name, d: Name, marks: set<Name>)
    requires Edge(g, n, d) && !Clear(g, d, marks + {n})
    ensures !Clear(g, n, marks)
  {
    if Clear(g, n, marks) {
      PartsOfClear(g, n, d, marks);
    }
  }

  lemma MarkedIsNotClear(g: Graph, n: Name, marks: set<Name>)
    requires n in g && n in marks
    ensures !Clear(g, n, marks)
  {
    assert Path(g, [n]) && n in [n];
  }

  lemma NotClearIsNotAcyclic(g: Graph, n: Name)
    requires !Clear(g, n, {})
    ensures !Acyclic(g)
  {
  }

  // check: whether the paths from np are clear; the marks are those on the way to np.
  method Check(np: Name, ghost g: Graph, ghost marks: set<Name>) returns (ok: bool)
    requires Represents(g) && Closed(g) && np in g && marks == Marked(g)
    modifies g.Keys`mark
    ensures ok <==> Clear(g, np, marks)
    ensures ok ==> Marked(g) == marks
    decreases |g.Keys - marks|, 1
  {
    if np.mark {
      MarkedIsNotClear(g, np, marks);
      return false;
    }
    np.mark := true;
    ghost var marks' := marks + {np};
    assert Marked(g) == marks';
    for l := 0 to |np.lines|
      invariant Marked(g) == marks'
      invariant forall k, d | 0 <= k < l && d in g[np][k] :: Clear(g, d, marks')
    {
      ok := CheckLine(np, l, g, marks);
      if !ok { return; }
    }
    forall d | d in Flat(g[np]) ensures Clear(g, d, marks') {
      var k := FlatFrom(g[np], d);
    }
    ClearFromParts(g, np, marks);
    np.mark := false;
    ok := true;
  }

  method CheckLine(np: Name, l: nat, ghost g: Graph, ghost marks: set<Name>) returns (ok: bool)
    requires Represents(g) && Closed(g) && np in g && np !in marks && Marked(g) == marks + {np} && l < |g[np]|
    modifies g.Keys`mark
    ensures ok ==> forall d | d in g[np][l] :: Clear(g, d, marks + {np})
    ensures ok ==> Marked(g) == marks + {np}
    ensures !ok ==> !Clear(g, np, marks)
    decreases |g.Keys - marks|, 0
  {
    var deps := np.lines[l];
    OneMore(g.Keys, marks, np);
    for i := 0 to |deps|
      invariant Marked(g) == marks + {np}
      invariant forall d | d in deps[..i] :: Clear(g, d, marks + {np})
    {
      FlatHolds(g[np], l, deps[i]);
      ok := Check(deps[i], g, marks + {np});
      if !ok {
        NotClear(g, np, deps[i], marks);
        return;
      }
    }
    ok := true;
    assert deps[..|deps|] == deps;
  }

  lemma OneMore(names: set<Name>, marks: set<Name>, n: Name)
    requires n in names && n !in marks
    ensures |names - (marks + {n})| < |names - marks|
  {
    assert names - marks == (names - (marks + {n})) + {n};
  }

  lemma {:induction false} FlatFrom(lines: seq<seq<Name>>, d: Name) returns (k: nat)
    requires d in Flat(lines)
    ensures k < |lines| && d in lines[k]
  {
    if d in lines[|lines| - 1] {
      k := |lines| - 1;
    } else {
      k := FlatFrom(lines[..|lines| - 1], d);
    }
  }

  // circh. Names that only come up later, as goals, have no lines.
  method Circh(names: seq<Name>, ghost g: Graph) returns (ok: bool)
    requires Represents(g) && Closed(g) && Marked(g) == {}
    requires forall n | n in names :: n in g
    requires forall n | n in g :: n in names || g[n] == []
    modifies g.Keys`mark
    ensures ok <==> Acyclic(g)
    ensures ok ==> Marked(g) == {}
  {
    for i := 0 to |names|
      invariant Marked(g) == {} && forall j | 0 <= j < i :: Clear(g, names[j], {})
    {
      ok := Check(names[i], g, {});
      if !ok {
        NotClearIsNotAcyclic(g, names[i]);
        return;
      }
    }
    ok := true;
    forall p | Path(g, p) ensures Distinct(p) {
      if |p| > 1 {
        assert Step(g, p, 1);
        assert g[p[0]] != [];
      }
    }
  }
}
