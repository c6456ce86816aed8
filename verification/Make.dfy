/** The recursive making of a target (src/bin.src/make/make.c, make and make1), without -q,
  double colons and the implicit rules. */
module Make {
  import opened DependencyGraph
  import opened Options
  import opened Sets

  // ---- What make is to do ----

  // What modtime finds: 0 without a file, and at least 1 with one.
  function Stat(n: Name): (r: nat) {
    match n.stamp
    case None => 0
    case Some(t) => if t == 0 then 1 else t
  }

  type Times = map<Name, nat>

  function Latest(ds: seq<Name>, times: Times): (r: nat)
    requires forall d | d in ds :: d in times
  {
    if ds == [] then 1
    else
      var rest, last := ds[..|ds| - 1], ds[|ds| - 1];
      assert last in ds;
      var t := Latest(rest, times);
      if times[last] > t then times[last] else t
  }

  lemma {:induction false} LatestIs(ds: seq<Name>, times: Times)
    requires forall d | d in ds :: d in times
    ensures Latest(ds, times) >= 1 && forall d | d in ds :: times[d] <= Latest(ds, times)
    ensures Latest(ds, times) == 1 || exists d | d in ds :: times[d] == Latest(ds, times)
  {
    if ds != [] {
      var rest, last := ds[..|ds| - 1], ds[|ds| - 1];
      assert last in ds && forall d | d in ds :: d in rest || d == last;
      LatestIs(rest, times);
    }
  }

  // The dependencies newer than t, in order.
  function Newer(ds: seq<Name>, t: nat, times: Times): (r: seq<Name>)
    requires forall d | d in ds :: d in times
  {
    if ds == [] then []
    else
      var rest, last := ds[..|ds| - 1], ds[|ds| - 1];
      assert last in ds;
      Newer(rest, t, times) + if t < times[last] then [last] else []
  }

  lemma {:induction false} NewerIs(ds: seq<Name>, t: nat, times: Times)
    requires forall d | d in ds :: d in times
    ensures forall d | d in ds :: d in Newer(ds, t, times) <==> t < times[d]
    ensures forall d | d in Newer(ds, t, times) :: d in ds
  {
    if ds != [] {
      var rest, last := ds[..|ds| - 1], ds[|ds| - 1];
      assert last in ds && forall d | d in ds :: d in rest || d == last;
      NewerIs(rest, t, times);
    }
  }

  // The newer ones keep the order of the dependencies.
  lemma {:induction false} NewerInOrder(a: seq<Name>, b: seq<Name>, t: nat, times: Times)
    requires forall d | d in a + b :: d in times
    ensures forall d | d in a || d in b :: d in times
    ensures Newer(a + b, t, times) == Newer(a, t, times) + Newer(b, t, times)
    decreases |b|
  {
    forall d | d in a || d in b ensures d in times {
      assert d in a + b;
    }
    if b == [] {
      assert a + b == a;
    } else {
      assert (a + b)[..|a + b| - 1] == a + b[..|b| - 1];
      NewerInOrder(a, b[..|b| - 1], t, times);
    }
  }

  // A call of make1: the target and the value of $?.
  datatype Event = Event(target: Name, newer: seq<Name>)

  datatype State = State(done: set<Name>, times: Times, made: seq<Event>)

  ghost predicate WasMade(s: State, n: Name) {
    exists i | 0 <= i < |s.made| :: s.made[i].target == n
  }

  ghost predicate Timed(g: Graph, s: State) {
    && Closed(g) && s.times.Keys == g.Keys && s.done <= g.Keys
    && forall i | 0 <= i < |s.made| :: s.made[i].target in s.done
  }

  ghost predicate Ready(g: Graph, s: State, n: Name)
    requires n in g
  {
    forall d | d in Flat(g[n]) :: d in s.done
  }

  // All dependencies of a name that is done are done, and it was made exactly when its file was
  // missing or older than one of them.
  ghost predicate Settled(g: Graph, s: State, n: Name)
    requires Timed(g, s) && n in g
  {
    && Ready(g, s, n)
    && (n.target || n.stamp.Some?)
    && (WasMade(s, n) <==> Stat(n) < Latest(Flat(g[n]), s.times))
    && (!WasMade(s, n) ==> s.times[n] == Stat(n))
  }

  // A target is made once, after those of its dependencies that are made, and is told which
  // dependencies are newer than its file was.
  ghost predicate MadeRightly(g: Graph, s: State, i: int)
    requires Timed(g, s) && 0 <= i < |s.made|
  {
    var n := s.made[i].target;
    && s.made[i].newer == Newer(Flat(g[n]), Stat(n), s.times)
    && forall j | i < j < |s.made| :: s.made[j].target != n && s.made[j].target !in Flat(g[n])
  }

  function MadeAt(s: State, i: nat): (r: nat)
    requires i < |s.made| && s.made[i].target in s.times
  {
    s.times[s.made[i].target]
  }

  // Targets are dated as they are made, between the start and now.
  ghost predicate Dated(s: State, start: nat, clock: nat)
    requires forall i | 0 <= i < |s.made| :: s.made[i].target in s.times
  {
    && (forall i {:trigger MadeAt(s, i)} | 0 <= i < |s.made| :: start <= MadeAt(s, i) <= clock)
    && (forall i, j {:trigger MadeAt(s, i), MadeAt(s, j)} | 0 <= i < j < |s.made| :: MadeAt(s, i) <= MadeAt(s, j))
  }

  ghost predicate Sound(g: Graph, s: State, start: nat, clock: nat) {
    && Timed(g, s) && start <= clock
    && (forall n {:trigger Settled(g, s, n)} | n in s.done :: Settled(g, s, n))
    && (forall n | n in g && n !in s.done :: s.times[n] == 0 || s.times[n] == Stat(n))
    && (forall i {:trigger MadeRightly(g, s, i)} | 0 <= i < |s.made| :: MadeRightly(g, s, i))
    && Dated(s, start, clock)
  }

  // ---- What it means ----

  ghost predicate Reaches(g: Graph, a: Name, b: Name) {
    exists p {:trigger Path(g, p)} :: Path(g, p) && p[0] == a && p[|p| - 1] == b
  }

  // All that n needs can be made or is there.
  ghost predicate Makeable(g: Graph, n: Name) {
    forall d | d in g && Reaches(g, n, d) :: d.target || d.stamp.Some?
  }

  // Whatever is reachable from a name that is done is done.
  lemma {:induction false} DoneReaches(g: Graph, s: State, start: nat, clock: nat, p: seq<Name>)
    requires Sound(g, s, start, clock) && Path(g, p) && p[0] in s.done
    ensures p[|p| - 1] in s.done
  {
    if |p| > 1 {
      Part(g, p, 0, |p| - 1);
      DoneReaches(g, s, start, clock, p[0..|p| - 1]);
      assert Step(g, p, |p| - 1) && Settled(g, s, p[|p| - 2]);
    }
  }

  lemma DoneIsMakeable(g: Graph, s: State, start: nat, clock: nat, n: Name)
    requires Sound(g, s, start, clock) && n in s.done
    ensures Makeable(g, n) && forall d | d in g && Reaches(g, n, d) :: d in s.done
  {
    forall d | d in g && Reaches(g, n, d) ensures d in s.done && (d.target || d.stamp.Some?) {
      var p :| Path(g, p) && p[0] == n && p[|p| - 1] == d;
      DoneReaches(g, s, start, clock, p);
      assert Settled(g, s, d);
    }
  }

  // A dependency is newer than its target exactly if the target was made, the dependency was not,
  // and the dependency's file is dated later than the target was made.
  lemma NoOlder(g: Graph, s: State, start: nat, clock: nat, n: Name, d: Name)
    requires Sound(g, s, start, clock) && n in s.done && d in Flat(g[n])
    ensures d in s.done
    ensures s.times[d] > s.times[n] <==> WasMade(s, n) && !WasMade(s, d) && Stat(d) > s.times[n]
  {
    assert Settled(g, s, n) && Settled(g, s, d);
    LatestIs(Flat(g[n]), s.times);
    if WasMade(s, n) && WasMade(s, d) {
      var i :| 0 <= i < |s.made| && s.made[i].target == n;
      var j :| 0 <= j < |s.made| && s.made[j].target == d;
      assert MadeRightly(g, s, i) && MadeAt(s, i) == s.times[n] && MadeAt(s, j) == s.times[d];
    }
  }

  lemma OneDependency(d: Name, times: Times)
    requires d in times
    ensures Flat([[d]]) == [d] && Latest([d], times) == if times[d] > 1 then times[d] else 1
    ensures Newer([d], 0, times) == if times[d] > 0 then [d] else []
  {
    assert [[d]][..0] == [] && [d][..0] == [];
  }

  lemma MadeTooEarly(g: Graph, s: State, n: Name, d: Name, start: nat)
    requires n != d && n.target && n.stamp.None? && !d.target && d.stamp == Some(start + 1)
    requires g.Keys == s.times.Keys == s.done == {n, d} && g[n] == [[d]] && g[d] == []
    requires s.times[n] == start && s.times[d] == start + 1 && s.made == [Event(n, [d])]
    ensures Sound(g, s, start, start)
  {
    OneDependency(d, s.times);
    assert s.made[0].target == n && !WasMade(s, d);
    assert Timed(g, s) && Settled(g, s, n) && Settled(g, s, d) && MadeRightly(g, s, 0);
  }

  // For example: a missing target whose one dependency is a file dated after the run.
  lemma LaterDependency(n: Name, d: Name, start: nat)
    requires n != d && n.target && n.stamp.None? && !d.target && d.stamp == Some(start + 1)
    ensures var g, s := map[n := [[d]], d := []], State({n, d}, map[n := start, d := start + 1], [Event(n, [d])]);
            Sound(g, s, start, start) && s.times[d] > s.times[n]
  {
    var g, s := map[n := [[d]], d := []], State({n, d}, map[n := start, d := start + 1], [Event(n, [d])]);
    MadeTooEarly(g, s, n, d, start);
  }

  // Each finished name is at least as new as its dependencies.
  ghost predicate UpToDate(g: Graph, s: State)
    requires Timed(g, s)
  {
    forall n, d | n in s.done && d in Flat(g[n]) :: s.times[d] <= s.times[n]
  }

  // If no file is dated after the start, that is what is left.
  lemma NothingFromTheFuture(g: Graph, s: State, start: nat, clock: nat)
    requires Sound(g, s, start, clock)
    requires start >= 1 && forall m | m in g && m.stamp.Some? :: m.stamp.value <= start
    ensures UpToDate(g, s)
  {
    forall n, d | n in s.done && d in Flat(g[n]) ensures s.times[d] <= s.times[n] {
      NoOlder(g, s, start, clock, n, d);
      if i :| 0 <= i < |s.made| && s.made[i].target == n {
        assert MadeAt(s, i) == s.times[n];
      }
    }
  }

  // ---- One step ----

  lemma {:induction false} LatestSame(ds: seq<Name>, times: Times, times': Times)
    requires forall d | d in ds :: d in times && d in times' && times[d] == times'[d]
    ensures Latest(ds, times) == Latest(ds, times')
  {
    if ds != [] {
      LatestSame(ds[..|ds| - 1], times, times');
    }
  }

  lemma {:induction false} NewerSame(ds: seq<Name>, t: nat, times: Times, times': Times)
    requires forall d | d in ds :: d in times && d in times' && times[d] == times'[d]
    ensures Newer(ds, t, times) == Newer(ds, t, times')
  {
    if ds != [] {
      NewerSame(ds[..|ds| - 1], t, times, times');
    }
  }

  // The state after n is found to be up to date, or is made at the time t.
  function After(g: Graph, s: State, n: Name, t: nat): (r: State)
    requires Timed(g, s) && n in g
  {
    var ds := Flat(g[n]);
    if Stat(n) < Latest(ds, s.times) then
      State(s.done + {n}, s.times[n := t], s.made + [Event(n, Newer(ds, Stat(n), s.times))])
    else s.(done := s.done + {n})
  }

  // More is done; what was done is as it was.
  ghost predicate Grown(s: State, s': State) {
    && s.done <= s'.done && s.made <= s'.made
    && (forall d {:trigger d in s.done} | d in s.done :: d in s.times && d in s'.times && s'.times[d] == s.times[d])
    && (forall i | |s.made| <= i < |s'.made| :: s'.made[i].target !in s.done)
  }

  lemma StillSettled(g: Graph, s: State, s': State, n: Name)
    requires Timed(g, s) && Timed(g, s') && Grown(s, s') && n in s.done && Settled(g, s, n)
    ensures Settled(g, s', n)
  {
    LatestSame(Flat(g[n]), s.times, s'.times);
    StillMade(s, s', n);
  }

  lemma StillMade(s: State, s': State, n: Name)
    requires Grown(s, s') && n in s.done
    ensures WasMade(s', n) <==> WasMade(s, n)
  {
    if WasMade(s, n) {
      var i :| 0 <= i < |s.made| && s.made[i].target == n;
      assert s'.made[i] == s.made[i];
    }
    if WasMade(s', n) {
      var i :| 0 <= i < |s'.made| && s'.made[i].target == n;
      assert i < |s.made| ==> s'.made[i] == s.made[i];
    }
  }

  lemma StillRight(g: Graph, s: State, s': State, i: nat)
    requires Timed(g, s) && Timed(g, s') && Grown(s, s') && i < |s.made| && MadeRightly(g, s, i)
    requires Settled(g, s, s.made[i].target)
    ensures MadeRightly(g, s', i)
  {
    var n := s.made[i].target;
    NewerSame(Flat(g[n]), Stat(n), s.times, s'.times);
    assert s'.made[..|s.made|] == s.made;
    forall j | i < j < |s'.made| ensures s'.made[j].target != n && s'.made[j].target !in Flat(g[n]) {
      assert j < |s.made| ==> s'.made[j] == s.made[j];
    }
  }

  lemma StillSound(g: Graph, s: State, s': State, start: nat, clock: nat)
    requires Sound(g, s, start, clock) && Timed(g, s') && Grown(s, s')
    ensures forall n {:trigger Settled(g, s', n)} | n in s.done :: Settled(g, s', n)
    ensures forall i {:trigger MadeRightly(g, s', i)} | 0 <= i < |s.made| :: MadeRightly(g, s', i)
  {
    forall n | n in s.done ensures Settled(g, s', n) {
      StillSettled(g, s, s', n);
    }
    forall i | 0 <= i < |s.made| ensures MadeRightly(g, s', i) {
      assert MadeRightly(g, s, i) && Settled(g, s, s.made[i].target);
      StillRight(g, s, s', i);
    }
  }

  lemma Finish(g: Graph, s: State, start: nat, clock: nat, n: Name, t: nat)
    requires Sound(g, s, start, clock) && n in g && n !in s.done && t >= clock
    requires s.times[n] == Stat(n) && (n.target || n.stamp.Some?) && Ready(g, s, n)
    ensures Sound(g, After(g, s, n, t), start, t) && Grown(s, After(g, s, n, t))
  {
    var s' := After(g, s, n, t);
    assert Timed(g, s') && Grown(s, s');
    StillSound(g, s, s', start, clock);
    NewSettled(g, s, n, t);
    StillDated(g, s, s', start, clock, t);
  }

  lemma StillDated(g: Graph, s: State, s': State, start: nat, clock: nat, t: nat)
    requires Timed(g, s) && Timed(g, s') && Grown(s, s') && Dated(s, start, clock) && start <= clock <= t
    requires |s'.made| <= |s.made| + 1 && (|s'.made| == |s.made| + 1 ==> MadeAt(s', |s.made|) == t)
    ensures Dated(s', start, t)
  {
    forall i | 0 <= i < |s.made| ensures MadeAt(s', i) == MadeAt(s, i) {
      assert s'.made[i] == s.made[i] && s.made[i].target in s.done;
    }
  }

  lemma NewSettled(g: Graph, s: State, n: Name, t: nat)
    requires Timed(g, s) && n in g && n !in s.done && Ready(g, s, n)
    requires s.times[n] == Stat(n) && (n.target || n.stamp.Some?)
    ensures var s' := After(g, s, n, t);
            Timed(g, s') && Settled(g, s', n) && (|s.made| < |s'.made| ==> MadeRightly(g, s', |s.made|))
  {
    var s' := After(g, s, n, t);
    LatestSame(Flat(g[n]), s.times, s'.times);
    NewerSame(Flat(g[n]), Stat(n), s.times, s'.times);
    if |s.made| < |s'.made| {
      assert s'.made[|s.made|].target == n;
    }
  }

  // What one call of make leaves of the state before it.
  ghost predicate Extends(g: Graph, s: State, s': State, n: Name) {
    Grown(s, s') && forall d | d in s'.done && d !in s.done :: d in g && Reaches(g, n, d)
  }

  lemma ReachesFurther(g: Graph, n: Name, d: Name)
    requires Edge(g, n, d)
    ensures forall m | m in g && Reaches(g, d, m) :: Reaches(g, n, m)
  {
    forall m | m in g && Reaches(g, d, m) ensures Reaches(g, n, m) {
      var p :| Path(g, p) && p[0] == d && p[|p| - 1] == m;
      Preceded(g, n, p);
      var q := [n] + p;
      assert q[0] == n && q[|q| - 1] == m;
    }
  }

  lemma Finished(g: Graph, s0: State, s: State, n: Name, t: nat)
    requires Timed(g, s) && Timed(g, s0) && Extends(g, s0, s, n) && n in g && n !in s.done
    ensures Extends(g, s0, After(g, s, n, t), n)
  {
    ReachesItself(g, n);
    var s' := After(g, s, n, t);
    assert forall i | 0 <= i < |s.made| :: s'.made[i] == s.made[i];
  }

  // The times of the names on the way to a target do not change while it is made.
  ghost predicate Untouched(ns: seq<Name>, s: State, s': State) {
    forall n | n in ns :: n !in s'.done && n in s.times && n in s'.times && s'.times[n] == s.times[n]
  }

  lemma Looked(g: Graph, s: State, start: nat, clock: nat, n: Name)
    requires Sound(g, s, start, clock) && n in g && n !in s.done
    ensures Sound(g, s.(times := s.times[n := Stat(n)]), start, clock)
    ensures Grown(s, s.(times := s.times[n := Stat(n)]))
  {
    var s' := s.(times := s.times[n := Stat(n)]);
    assert Timed(g, s') && Grown(s, s');
    StillSound(g, s, s', start, clock);
    StillDated(g, s, s', start, clock, clock);
  }

  lemma Alone(g: Graph, n: Name)
    requires n in g && !n.target && n.stamp.None?
    ensures !Makeable(g, n)
  {
    var p := [n];
    assert Path(g, p) && p[0] == n && p[|p| - 1] == n;
  }

  lemma NotMakeable(g: Graph, n: Name, d: Name)
    requires Edge(g, n, d) && !Makeable(g, d)
    ensures !Makeable(g, n)
  {
    ReachesFurther(g, n, d);
  }

  // Within the making of n, after the dependencies in seen.
  ghost predicate Going(g: Graph, s0: State, s: State, n: Name, seen: seq<Name>, newer: seq<Name>, latest: nat) {
    && Timed(g, s) && n in g && n !in s.done && s.times[n] == Stat(n)
    && (forall d | d in seen :: d in g && d in s.done)
    && newer == Newer(seen, Stat(n), s.times) && latest == Latest(seen, s.times)
    && Extends(g, s0, s, n)
  }

  // It is left there: one of the names cannot be made, and those before it have been.
  ghost predicate StuckIn(g: Graph, s: State, ds: seq<Name>) {
    exists k | 0 <= k < |ds| :: !Makeable(g, ds[k]) && forall d | d in ds[..k] :: d in s.done
  }

  lemma StuckFurther(g: Graph, s: State, a: seq<Name>, b: seq<Name>)
    requires StuckIn(g, s, a) && a <= b
    ensures StuckIn(g, s, b)
  {
    var k :| 0 <= k < |a| && !Makeable(g, a[k]) && forall d | d in a[..k] :: d in s.done;
    assert b[k] == a[k] && b[..k] == a[..k];
  }

  lemma {:induction false} FlatPrefix(lines: seq<seq<Name>>, l: nat)
    requires l <= |lines|
    ensures Flat(lines[..l]) <= Flat(lines)
    decreases |lines| - l
  {
    if l < |lines| {
      FlatNext(lines, l);
      FlatPrefix(lines, l + 1);
    } else {
      assert lines[..l] == lines;
    }
  }

  lemma StuckAt(g: Graph, s: State, s': State, seen: seq<Name>, d: Name)
    requires Grown(s, s') && !Makeable(g, d) && forall x | x in seen :: x in s.done
    ensures StuckIn(g, s', seen + [d])
  {
    var all := seen + [d];
    assert all[|seen|] == d && all[..|seen|] == seen;
  }

  lemma NotDone(g: Graph, s: State, start: nat, clock: nat, n: Name)
    requires Sound(g, s, start, clock) && n in g && !Makeable(g, n)
    ensures n !in s.done
  {
    if n in s.done {
      DoneIsMakeable(g, s, start, clock, n);
    }
  }

  // A dependency that fails leaves what it and those before it needed.
  lemma ExtendsAll(g: Graph, s0: State, s: State, s': State, n: Name, d: Name)
    requires Extends(g, s0, s, n) && Extends(g, s, s', d) && Edge(g, n, d)
    ensures Extends(g, s0, s', n)
  {
    ReachesFurther(g, n, d);
  }

  function Max(a: nat, b: nat): (r: nat) {
    if a > b then a else b
  }

  lemma Advance(g: Graph, s0: State, s: State, s': State, n: Name, d: Name, seen: seq<Name>, newer: seq<Name>,
                latest: nat)
    requires Going(g, s0, s, n, seen, newer, latest) && Edge(g, n, d)
    requires Timed(g, s') && Extends(g, s, s', d) && d in s'.done && n !in s'.done && s'.times[n] == s.times[n]
    ensures Going(g, s0, s', n, seen + [d], newer + if Stat(n) < s'.times[d] then [d] else [],
                  Max(latest, s'.times[d]))
  {
    NewerSame(seen, Stat(n), s.times, s'.times);
    LatestSame(seen, s.times, s'.times);
    assert (seen + [d])[..|seen|] == seen;
    ReachesFurther(g, n, d);
  }

  lemma TrailGoesOn(g: Graph, trail: seq<Name>, d: Name)
    requires Acyclic(g) && Path(g, trail) && Edge(g, trail[|trail| - 1], d)
    ensures Path(g, trail + [d]) && |trail| < |g.Keys|
    ensures (trail + [d])[..|trail|] == trail
  {
    Extended(g, trail, d);
    DistinctIsShort(trail + [d], g.Keys);
  }

  lemma ReachesItself(g: Graph, n: Name)
    requires n in g
    ensures Reaches(g, n, n)
  {
    var p := [n];
    assert Path(g, p) && p[0] == n && p[|p| - 1] == n;
  }

  lemma OnTheWay(g: Graph, trail: seq<Name>, s0: State, s: State)
    requires trail != [] && Untouched(trail[..|trail| - 1], s0, s)
    requires trail[|trail| - 1] !in s.done && trail[|trail| - 1] in s.times
    ensures Untouched(trail, s, s)
  {
    assert trail == trail[..|trail| - 1] + [trail[|trail| - 1]];
  }

  lemma StillUntouched(trail: seq<Name>, s0: State, s: State, s': State)
    requires trail != [] && Untouched(trail[..|trail| - 1], s0, s) && Untouched(trail, s, s')
    ensures Untouched(trail[..|trail| - 1], s0, s')
    ensures trail[|trail| - 1] !in s'.done
    ensures trail[|trail| - 1] in s.times && trail[|trail| - 1] in s'.times
    ensures s'.times[trail[|trail| - 1]] == s.times[trail[|trail| - 1]]
  {
    assert trail[|trail| - 1] in trail;
  }

  lemma StillOnTheWay(g: Graph, trail: seq<Name>, s0: State, s: State, t: nat)
    requires Acyclic(g) && Path(g, trail) && Timed(g, s) && trail[|trail| - 1] in g
    requires Untouched(trail[..|trail| - 1], s0, s)
    ensures Untouched(trail[..|trail| - 1], s0, After(g, s, trail[|trail| - 1], t))
  {
    assert Distinct(trail);
  }

  lemma FlatNext(lines: seq<seq<Name>>, l: nat)
    requires l < |lines|
    ensures Flat(lines[..l + 1]) == Flat(lines[..l]) + lines[l]
  {
    assert lines[..l + 1][..l] == lines[..l];
  }

  lemma OneFurther(seen: seq<Name>, deps: seq<Name>, i: nat)
    requires i < |deps|
    ensures seen + deps[..i] + [deps[i]] == seen + deps[..i + 1]
  {
    assert deps[..i + 1] == deps[..i] + [deps[i]];
  }

  // ---- When every run leaves all up to date ----

  // What would be the latest of the dependencies in a run that takes no time, looking k levels
  // deep, and the time it would leave a name with.
  function QuickLatest(g: Graph, start: nat, ds: seq<Name>, k: nat): (t: nat)
    requires Closed(g) && forall d | d in ds :: d in g
    ensures t >= 1
    decreases k, 0, |ds|
  {
    if k == 0 || ds == [] then 1
    else
      var rest, last := ds[..|ds| - 1], ds[|ds| - 1];
      assert last in ds;
      Max(Quick(g, start, last, k - 1), QuickLatest(g, start, rest, k))
  }

  function Quick(g: Graph, start: nat, n: Name, k: nat): (t: nat)
    requires Closed(g) && n in g
    decreases k, 1
  {
    if QuickMade(g, start, n, k) then start else Stat(n)
  }

  predicate QuickMade(g: Graph, start: nat, n: Name, k: nat)
    requires Closed(g) && n in g
    decreases k, 0, |Flat(g[n])| + 1
  {
    Stat(n) < QuickLatest(g, start, Flat(g[n]), k)
  }

  // Of the names in D, no target that a run taking no time would make has a dependency that it
  // would not make and whose file is dated after the start.
  ghost predicate Safe(g: Graph, D: set<Name>, start: nat)
    requires Closed(g) && D <= g.Keys
  {
    forall n, d | n in D && d in Flat(g[n]) && QuickMade(g, start, n, |g.Keys|) && !QuickMade(g, start, d, |g.Keys|) ::
      Stat(d) <= start
  }

  // What a run makes and when, against the run that takes no time.
  ghost predicate NotSooner(g: Graph, s: State, start: nat, n: Name, k: nat)
    requires Timed(g, s) && n in g
  {
    && s.times[n] >= Quick(g, start, n, k)
    && (QuickMade(g, start, n, k) ==> WasMade(s, n))
    && (WasMade(s, n) && !QuickMade(g, start, n, k) ==> s.times[n] > Stat(n))
  }

  lemma {:induction false} LatestNotSooner(g: Graph, s: State, start: nat, ds: seq<Name>, k: nat)
    requires Timed(g, s) && k > 0
    requires forall d | d in ds :: d in g && s.times[d] >= Quick(g, start, d, k - 1)
    ensures Latest(ds, s.times) >= QuickLatest(g, start, ds, k)
  {
    if ds != [] {
      assert ds[|ds| - 1] in ds && forall d | d in ds :: d in ds[..|ds| - 1] || d == ds[|ds| - 1];
      LatestNotSooner(g, s, start, ds[..|ds| - 1], k);
    }
  }

  lemma {:induction false} QuickCounts(g: Graph, start: nat, ds: seq<Name>, k: nat, d: Name)
    requires Closed(g) && k > 0 && d in ds && forall e | e in ds :: e in g
    ensures Quick(g, start, d, k - 1) <= QuickLatest(g, start, ds, k)
  {
    if d != ds[|ds| - 1] {
      QuickCounts(g, start, ds[..|ds| - 1], k, d);
    }
  }

  // A trail leaves fewer levels to look than the names not on it.
  ghost predicate Deep(g: Graph, trail: seq<Name>, n: Name, k: nat) {
    Path(g, trail) && trail[|trail| - 1] == n && |trail| + k > |g.Keys|
  }

  lemma DeepNext(g: Graph, trail: seq<Name>, n: Name, k: nat, d: Name)
    requires Acyclic(g) && Closed(g) && Deep(g, trail, n, k) && d in Flat(g[n])
    ensures k > 0 && d in g && Deep(g, trail + [d], d, k - 1)
  {
    assert Edge(g, n, d);
    TrailGoesOn(g, trail, d);
  }

  lemma {:induction false} RunNotSooner(g: Graph, s: State, start: nat, clock: nat, n: Name, k: nat, trail: seq<Name>)
    requires Sound(g, s, start, clock) && Acyclic(g) && n in s.done && Deep(g, trail, n, k)
    ensures NotSooner(g, s, start, n, k)
    decreases k
  {
    var ds := Flat(g[n]);
    assert Settled(g, s, n);
    forall d | d in ds
      ensures k > 0 && d in s.done && NotSooner(g, s, start, d, k - 1)
      ensures Quick(g, start, d, k - 1) <= QuickLatest(g, start, ds, k)
    {
      DeepNext(g, trail, n, k, d);
      RunNotSooner(g, s, start, clock, d, k - 1, trail + [d]);
      assert Quick(g, start, d, k - 1) <= QuickLatest(g, start, ds, k) by {
        QuickCounts(g, start, ds, k, d);
      }
    }
    if ds != [] {
      assert ds[0] in ds;
      LatestNotSooner(g, s, start, ds, k);
    }
    MadeNotSooner(g, s, start, clock, n, k);
  }

  lemma MadeNotSooner(g: Graph, s: State, start: nat, clock: nat, n: Name, k: nat)
    requires Sound(g, s, start, clock) && n in s.done && (Flat(g[n]) != [] ==> k > 0)
    requires forall d | d in Flat(g[n]) :: d in s.done && NotSooner(g, s, start, d, k - 1)
    requires forall d | d in Flat(g[n]) :: Quick(g, start, d, k - 1) <= QuickLatest(g, start, Flat(g[n]), k)
    requires Latest(Flat(g[n]), s.times) >= QuickLatest(g, start, Flat(g[n]), k)
    ensures NotSooner(g, s, start, n, k)
  {
    var ds := Flat(g[n]);
    assert Settled(g, s, n);
    LatestIs(ds, s.times);
    if i :| 0 <= i < |s.made| && s.made[i].target == n {
      assert MadeAt(s, i) == s.times[n];
    }
    if WasMade(s, n) && !QuickMade(g, start, n, k) && Latest(ds, s.times) > 1 {
      var e :| e in ds && s.times[e] == Latest(ds, s.times);
      assert NotSooner(g, s, start, e, k - 1) && Settled(g, s, e);
      NoOlder(g, s, start, clock, n, e);
    }
  }

  // In a run that takes no time, both are equal.
  lemma {:induction false} QuickIs(g: Graph, s: State, start: nat, n: Name, k: nat, trail: seq<Name>)
    requires Sound(g, s, start, start) && Acyclic(g) && n in s.done && Deep(g, trail, n, k)
    ensures s.times[n] == Quick(g, start, n, k) && (WasMade(s, n) <==> QuickMade(g, start, n, k))
    decreases k
  {
    var ds := Flat(g[n]);
    assert Settled(g, s, n);
    forall d | d in ds ensures k > 0 && d in s.done && s.times[d] == Quick(g, start, d, k - 1) {
      DeepNext(g, trail, n, k, d);
      QuickIs(g, s, start, d, k - 1, trail + [d]);
    }
    if ds != [] {
      assert ds[0] in ds;
      LatestQuick(g, s, start, ds, k);
    }
    assert Latest(ds, s.times) == QuickLatest(g, start, ds, k);
    if i :| 0 <= i < |s.made| && s.made[i].target == n {
      assert MadeAt(s, i) == s.times[n];
    }
  }

  lemma {:induction false} LatestQuick(g: Graph, s: State, start: nat, ds: seq<Name>, k: nat)
    requires Timed(g, s) && k > 0
    requires forall d | d in ds :: d in g && s.times[d] == Quick(g, start, d, k - 1)
    ensures Latest(ds, s.times) == QuickLatest(g, start, ds, k)
  {
    if ds != [] {
      assert ds[|ds| - 1] in ds;
      LatestQuick(g, s, start, ds[..|ds| - 1], k);
    }
  }

  // Names that are done together: all they depend on is among them and can be made or is there.
  ghost predicate Whole(g: Graph, D: set<Name>) {
    && D <= g.Keys
    && (forall n, d | n in D && d in Flat(g[n]) :: d in D)
    && (forall n | n in D :: n.target || n.stamp.Some?)
  }

  // One of them is no other's dependency.
  lemma {:induction false} Top(g: Graph, D: set<Name>, trail: seq<Name>) returns (n: Name)
    requires Closed(g) && Acyclic(g) && D <= g.Keys && Path(g, trail) && trail[0] in D
    ensures n in D && forall m | m in D :: n !in Flat(g[m])
    decreases |g.Keys| - |trail|
  {
    DistinctIsShort(trail, g.Keys);
    if m :| m in D && trail[0] in Flat(g[m]) {
      Preceded(g, m, trail);
      DistinctIsShort([m] + trail, g.Keys);
      n := Top(g, D, [m] + trail);
    } else {
      n := trail[0];
    }
  }

  // There is a run that takes no time.
  lemma {:induction false} QuickRun(g: Graph, D: set<Name>, start: nat) returns (s: State)
    requires Closed(g) && Acyclic(g) && Whole(g, D)
    ensures Sound(g, s, start, start) && s.done == D
    decreases |D|
  {
    if |D| == 0 {
      s := State({}, map n | n in g :: 0, []);
      NothingYet(g, s, start, start);
    } else {
      var m := PickOne(D);
      ReachesItself(g, m);
      assert Path(g, [m]);
      var n := Top(g, D, [m]);
      var s0 := QuickRun(g, D - {n}, start);
      Looked(g, s0, start, start, n);
      var s1 := s0.(times := s0.times[n := Stat(n)]);
      assert n !in Flat(g[n]);
      Finish(g, s1, start, start, n, start);
      s := After(g, s1, n, start);
    }
  }

  // Every run, however its clock moves, leaves all names up to date if and only if the names are
  // safe, which can be told from the files before the run.
  lemma EveryRunUpToDate(g: Graph, D: set<Name>, start: nat)
    requires Closed(g) && Acyclic(g) && Whole(g, D)
    ensures Safe(g, D, start) <==>
            forall s, clock | Sound(g, s, start, clock) && s.done == D :: UpToDate(g, s)
  {
    if Safe(g, D, start) {
      forall s, clock | Sound(g, s, start, clock) && s.done == D ensures UpToDate(g, s) {
        SafeRun(g, s, start, clock);
      }
    } else {
      UnsafeRun(g, D, start);
    }
  }

  lemma SafeRun(g: Graph, s: State, start: nat, clock: nat)
    requires Sound(g, s, start, clock) && Acyclic(g) && Safe(g, s.done, start)
    ensures UpToDate(g, s)
  {
    var k := |g.Keys|;
    forall n, d | n in s.done && d in Flat(g[n]) ensures s.times[d] <= s.times[n] {
      NoOlder(g, s, start, clock, n, d);
      assert Deep(g, [n], n, k) && Deep(g, [d], d, k);
      RunNotSooner(g, s, start, clock, n, k, [n]);
      RunNotSooner(g, s, start, clock, d, k, [d]);
      if s.times[d] > s.times[n] {
        var i :| 0 <= i < |s.made| && s.made[i].target == n;
        assert MadeAt(s, i) == s.times[n];
        DeepNext(g, [n], n, k, d);
        RunNotSooner(g, s, start, clock, d, k - 1, [n] + [d]);
        QuickCounts(g, start, Flat(g[n]), k, d);
        LateDependency(g, s, start, n, d);
      }
    }
  }

  // A dependency that is too new in some run is too new in the run that takes no time.
  lemma LateDependency(g: Graph, s: State, start: nat, n: Name, d: Name)
    requires Timed(g, s) && n in g && d in g && d in Flat(g[n])
    requires NotSooner(g, s, start, n, |g.Keys|) && NotSooner(g, s, start, d, |g.Keys|)
    requires WasMade(s, n) && !WasMade(s, d) && Stat(d) > s.times[n] >= start
    requires Stat(d) <= QuickLatest(g, start, Flat(g[n]), |g.Keys|)
    ensures QuickMade(g, start, n, |g.Keys|) && !QuickMade(g, start, d, |g.Keys|) && Stat(d) > start
  {
  }

  lemma UnsafeRun(g: Graph, D: set<Name>, start: nat)
    requires Closed(g) && Acyclic(g) && Whole(g, D) && !Safe(g, D, start)
    ensures exists s, clock :: Sound(g, s, start, clock) && s.done == D && !UpToDate(g, s)
  {
    var k := |g.Keys|;
    var s := QuickRun(g, D, start);
    var n, d :| n in D && d in Flat(g[n]) && QuickMade(g, start, n, k) && !QuickMade(g, start, d, k) && Stat(d) > start;
    assert Deep(g, [n], n, k) && Deep(g, [d], d, k);
    QuickIs(g, s, start, n, k, [n]);
    QuickIs(g, s, start, d, k, [d]);
    assert s.times[d] == Stat(d) && s.times[n] == start;
    assert !UpToDate(g, s);
  }

  class Maker {
    var clock: nat
    var made: seq<Event>
    ghost const start: nat

    constructor (now: nat)
      ensures clock == start == now && made == []
    {
      clock, made, start := now, [], now;
    }

    ghost function Now(g: Graph): (s: State)
      reads this, g.Keys
    {
      State(set n | n in g && n.done, map n | n in g :: n.time, made)
    }

    // time: some moment not before the last one.
    method Time() returns (t: nat)
      modifies this`clock
      ensures t == clock >= old(clock)
    {
      var elapsed: int := *;
      if elapsed > 0 {
        clock := clock + elapsed;
      }
      t := clock;
    }

    // modtime, if the time is not known yet.
    method ModTime(np: Name, ghost g: Graph)
      requires Sound(g, Now(g), start, clock) && np in g && !np.done
      modifies g.Keys`time
      ensures Now(g) == old(Now(g)).(times := old(Now(g)).times[np := Stat(np)])
      ensures Sound(g, Now(g), start, clock)
    {
      Looked(g, Now(g), start, clock, np);
      if np.time == 0 {
        np.time := Stat(np);
      }
    }

    // make1, and what make does around it.
    method Finishing(np: Name, ghost g: Graph, qdp: seq<Name>, dtime: nat)
      requires Represents(g) && Sound(g, Now(g), start, clock) && np in g && !np.done && np.time == Stat(np)
      requires np.target || np.stamp.Some?
      requires forall d | d in Flat(g[np]) :: d in g && d.done
      requires qdp == Newer(Flat(g[np]), Stat(np), Now(g).times) && dtime == Latest(Flat(g[np]), Now(g).times)
      modifies this`clock, this`made, g.Keys`done, g.Keys`time
      ensures clock >= old(clock) && Sound(g, Now(g), start, clock)
      ensures Now(g) == After(g, old(Now(g)), np, clock)
    {
      ghost var s, before := Now(g), clock;
      np.done := true;
      if np.time < dtime {
        made := made + [Event(np, qdp)];
        np.time := Time();
      }
      Finish(g, s, start, before, np, clock);
      assert Now(g).done == s.done + {np};
      assert Now(g).times == if np.time == Stat(np) && made == s.made then s.times else s.times[np := np.time];
    }

    // make
    method Make(np: Name, ghost g: Graph, ghost trail: seq<Name>) returns (ok: bool)
      requires Represents(g) && Acyclic(g) && Sound(g, Now(g), start, clock)
      requires Path(g, trail) && trail[|trail| - 1] == np
      requires Untouched(trail[..|trail| - 1], Now(g), Now(g))
      modifies this`clock, this`made, g.Keys`done, g.Keys`time
      ensures ok <==> Makeable(g, np)
      ensures ok <==> np.done
      ensures Sound(g, Now(g), start, clock) && Extends(g, old(Now(g)), Now(g), np)
      ensures Untouched(trail[..|trail| - 1], old(Now(g)), Now(g))
      ensures ok || (!np.target && np.stamp.None?) || StuckIn(g, Now(g), Flat(g[np]))
      decreases |g.Keys| - |trail|, 3
    {
      if np.done {
        DoneIsMakeable(g, Now(g), start, clock, np);
        return true;
      }
      ghost var s0 := Now(g);
      ModTime(np, g);
      if !np.target && np.time == 0 {
        Alone(g, np);
        return false;
      }
      var qdp, dtime;
      ok, qdp, dtime := MakeLines(np, g, trail, s0);
      if !ok {
        NotDone(g, Now(g), start, clock, np);
        return;
      }
      ghost var s := Now(g);
      Finishing(np, g, qdp, dtime);
      Finished(g, s0, s, np, clock);
      StillOnTheWay(g, trail, s0, s, clock);
      DoneIsMakeable(g, Now(g), start, clock, np);
      ok := true;
    }

    // The loop over the lines.
    method MakeLines(np: Name, ghost g: Graph, ghost trail: seq<Name>, ghost s0: State)
      returns (ok: bool, qdp: seq<Name>, dtime: nat)
      requires Represents(g) && Acyclic(g) && Sound(g, Now(g), start, clock)
      requires Path(g, trail) && trail[|trail| - 1] == np
      requires Untouched(trail[..|trail| - 1], s0, Now(g)) && Going(g, s0, Now(g), np, [], [], 1)
      modifies this`clock, this`made, g.Keys`done, g.Keys`time
      ensures Sound(g, Now(g), start, clock) && Extends(g, s0, Now(g), np)
      ensures Untouched(trail[..|trail| - 1], s0, Now(g))
      ensures if ok then Going(g, s0, Now(g), np, Flat(g[np]), qdp, dtime)
              else !Makeable(g, np) && StuckIn(g, Now(g), Flat(g[np]))
      decreases |g.Keys| - |trail|, 2
    {
      ghost var seen: seq<Name> := [];
      qdp, dtime := [], 1;
      for l := 0 to |np.lines|
        invariant Sound(g, Now(g), start, clock)
        invariant seen == Flat(np.lines[..l]) && Going(g, s0, Now(g), np, seen, qdp, dtime)
        invariant Untouched(trail[..|trail| - 1], s0, Now(g))
      {
        ok, qdp, dtime := MakeLine(np, l, g, trail, s0, seen, qdp, dtime);
        FlatNext(np.lines, l);
        if !ok {
          FlatPrefix(np.lines, l + 1);
          StuckFurther(g, Now(g), seen + g[np][l], Flat(g[np]));
          return;
        }
        seen := seen + np.lines[l];
      }
      ok := true;
      assert np.lines[..|np.lines|] == np.lines;
    }

    // The dependencies of one line.
    method MakeLine(np: Name, l: nat, ghost g: Graph, ghost trail: seq<Name>, ghost s0: State,
                    ghost seen: seq<Name>, newer: seq<Name>, latest: nat)
      returns (ok: bool, qdp: seq<Name>, dtime: nat)
      requires Represents(g) && Acyclic(g) && Sound(g, Now(g), start, clock)
      requires Path(g, trail) && trail[|trail| - 1] == np && l < |g[np]|
      requires Untouched(trail[..|trail| - 1], s0, Now(g)) && Going(g, s0, Now(g), np, seen, newer, latest)
      modifies this`clock, this`made, g.Keys`done, g.Keys`time
      ensures Sound(g, Now(g), start, clock) && Extends(g, s0, Now(g), np)
      ensures Untouched(trail[..|trail| - 1], s0, Now(g))
      ensures if ok then Going(g, s0, Now(g), np, seen + g[np][l], qdp, dtime)
              else !Makeable(g, np) && StuckIn(g, Now(g), seen + g[np][l])
      decreases |g.Keys| - |trail|, 1
    {
      var deps := np.lines[l];
      qdp, dtime := newer, latest;
      assert seen + deps[..0] == seen;
      for i := 0 to |deps|
        invariant Sound(g, Now(g), start, clock)
        invariant Going(g, s0, Now(g), np, seen + deps[..i], qdp, dtime)
        invariant Untouched(trail[..|trail| - 1], s0, Now(g))
      {
        FlatHolds(g[np], l, deps[i]);
        ok, qdp, dtime := MakeDependency(np, deps[i], g, trail, s0, seen + deps[..i], qdp, dtime);
        OneFurther(seen, deps, i);
        if !ok {
          StuckFurther(g, Now(g), seen + deps[..i] + [deps[i]], seen + deps);
          return;
        }
      }
      assert deps[..|deps|] == deps;
      ok := true;
    }

    method MakeDependency(np: Name, d: Name, ghost g: Graph, ghost trail: seq<Name>, ghost s0: State,
                          ghost seen: seq<Name>, newer: seq<Name>, latest: nat)
      returns (ok: bool, qdp: seq<Name>, dtime: nat)
      requires Represents(g) && Acyclic(g) && Sound(g, Now(g), start, clock)
      requires Path(g, trail) && trail[|trail| - 1] == np && Edge(g, np, d)
      requires Untouched(trail[..|trail| - 1], s0, Now(g)) && Going(g, s0, Now(g), np, seen, newer, latest)
      modifies this`clock, this`made, g.Keys`done, g.Keys`time
      ensures Sound(g, Now(g), start, clock) && Extends(g, s0, Now(g), np)
      ensures Untouched(trail[..|trail| - 1], s0, Now(g))
      ensures if ok then Going(g, s0, Now(g), np, seen + [d], qdp, dtime)
              else !Makeable(g, np) && StuckIn(g, Now(g), seen + [d])
      decreases |g.Keys| - |trail|, 0
    {
      qdp, dtime := newer, latest;
      ghost var s := Now(g);
      TrailGoesOn(g, trail, d);
      OnTheWay(g, trail, s0, s);
      ok := Make(d, g, trail + [d]);
      StillUntouched(trail, s0, s, Now(g));
      ExtendsAll(g, s0, s, Now(g), np, d);
      if !ok {
        NotMakeable(g, np, d);
        StuckAt(g, s, Now(g), seen, d);
        return;
      }
      Advance(g, s0, s, Now(g), np, d, seen, newer, latest);
      if np.time < d.time {
        qdp := qdp + [d];
      }
      dtime := Max(dtime, d.time);
    }
  }

  // ---- The program ----

  ghost predicate Needed(g: Graph, goals: seq<Name>, n: Name) {
    exists q | q in goals :: Reaches(g, q, n)
  }

  // What main does once the makefile is read: the search for circles, then each goal in turn.  A
  // goal that the makefile does not name is a name without lines.
  method MakeGoals(maker: Maker, names: seq<Name>, goals: seq<Name>, ghost g: Graph) returns (ok: bool)
    requires Represents(g) && Closed(g)
    requires forall n | n in names :: n in g
    requires forall n | n in g :: n in names || g[n] == []
    requires forall n | n in goals :: n in g
    requires forall n | n in g :: !n.mark && !n.done && n.time == 0
    requires maker.made == [] && maker.start <= maker.clock
    modifies g.Keys`mark, maker`clock, maker`made, g.Keys`done, g.Keys`time
    ensures ok <==> Acyclic(g) && forall q | q in goals :: Makeable(g, q)
    ensures Sound(g, maker.Now(g), maker.start, maker.clock)
    ensures !Acyclic(g) ==> maker.Now(g) == old(maker.Now(g)) && maker.made == []
    ensures !ok && Acyclic(g) ==> StuckIn(g, maker.Now(g), goals)
    ensures forall n | n in g && n.done :: Needed(g, goals, n) && Makeable(g, n)
    ensures ok ==> forall n | n in g :: n.done <==> Needed(g, goals, n)
    ensures ok && Safe(g, maker.Now(g).done, maker.start) ==> UpToDate(g, maker.Now(g))
  {
    ghost var s := maker.Now(g);
    NothingYet(g, s, maker.start, maker.clock);
    ok := Circh(names, g);
    if ok {
      assert maker.Now(g) == s;
      ok := MakeEach(maker, goals, g);
      if ok && Safe(g, maker.Now(g).done, maker.start) {
        SafeRun(g, maker.Now(g), maker.start, maker.clock);
      }
    }
  }

  lemma NothingYet(g: Graph, s: State, start: nat, clock: nat)
    requires Closed(g) && s.done == {} && s.made == [] && start <= clock
    requires s.times.Keys == g.Keys && forall n | n in g :: s.times[n] == 0
    ensures Sound(g, s, start, clock) && Served(g, s, [])
  {
  }

  // The goals so far are done, and nothing but what they need.
  ghost predicate Served(g: Graph, s: State, goals: seq<Name>) {
    && (forall q | q in goals :: q in s.done && Makeable(g, q))
    && (forall n {:trigger Needed(g, goals, n)} | n in s.done :: n in g && Needed(g, goals, n))
  }

  method MakeEach(maker: Maker, goals: seq<Name>, ghost g: Graph) returns (ok: bool)
    requires Represents(g) && Acyclic(g) && Sound(g, maker.Now(g), maker.start, maker.clock)
    requires Served(g, maker.Now(g), [])
    requires forall n | n in goals :: n in g
    modifies maker`clock, maker`made, g.Keys`done, g.Keys`time
    ensures ok <==> forall q | q in goals :: Makeable(g, q)
    ensures Sound(g, maker.Now(g), maker.start, maker.clock)
    ensures !ok ==> StuckIn(g, maker.Now(g), goals)
    ensures forall n | n in g && n.done :: Needed(g, goals, n) && Makeable(g, n)
    ensures ok ==> forall n | n in g :: n.done <==> Needed(g, goals, n)
  {
    assert goals[..0] == [];
    for i := 0 to |goals|
      invariant Sound(g, maker.Now(g), maker.start, maker.clock)
      invariant Served(g, maker.Now(g), goals[..i])
    {
      ghost var before := maker.Now(g);
      ok := maker.Make(goals[i], g, [goals[i]]);
      if !ok {
        StuckAt(g, before, maker.Now(g), goals[..i], goals[i]);
        StuckFurther(g, maker.Now(g), goals[..i] + [goals[i]], goals);
        OnlyNeeded(g, before, maker, goals, i);
        return;
      }
      ServedNext(g, before, maker.Now(g), goals, i);
    }
    ok := true;
    assert goals[..|goals|] == goals;
    forall n | n in g ensures n in maker.Now(g).done <==> Needed(g, goals, n) {
      NeededIsDone(g, maker.Now(g), maker.start, maker.clock, goals, n);
    }
    forall n | n in g && n.done ensures Makeable(g, n) {
      DoneIsMakeable(g, maker.Now(g), maker.start, maker.clock, n);
    }
  }

  // What has been done is what the goals up to the one that failed need.
  lemma OnlyNeeded(g: Graph, s: State, maker: Maker, goals: seq<Name>, i: nat)
    requires i < |goals| && Served(g, s, goals[..i]) && Extends(g, s, maker.Now(g), goals[i])
    requires Sound(g, maker.Now(g), maker.start, maker.clock)
    ensures forall n | n in g && n.done :: Needed(g, goals, n) && Makeable(g, n)
  {
    forall n | n in g && n.done ensures Needed(g, goals, n) && Makeable(g, n) {
      assert n in maker.Now(g).done;
      DoneIsMakeable(g, maker.Now(g), maker.start, maker.clock, n);
      if n in s.done {
        assert Needed(g, goals[..i], n);
      }
    }
  }

  lemma ServedNext(g: Graph, s: State, s': State, goals: seq<Name>, i: nat)
    requires i < |goals| && Extends(g, s, s', goals[i]) && goals[i] in s'.done && goals[i] in g && Makeable(g, goals[i])
    requires Served(g, s, goals[..i])
    ensures Served(g, s', goals[..i + 1])
  {
    assert goals[..i + 1] == goals[..i] + [goals[i]];
    forall n | n in s'.done ensures n in g && Needed(g, goals[..i + 1], n) {
      if n in s.done {
        assert Needed(g, goals[..i], n);
        var q :| q in goals[..i] && Reaches(g, q, n);
        assert q in goals[..i + 1];
      } else {
        assert goals[i] in goals[..i + 1] && Reaches(g, goals[i], n);
      }
    }
  }

  lemma NeededIsDone(g: Graph, s: State, start: nat, clock: nat, goals: seq<Name>, n: Name)
    requires Sound(g, s, start, clock) && n in g
    requires forall q | q in goals :: q in s.done
    requires n in s.done ==> Needed(g, goals, n)
    ensures n in s.done <==> Needed(g, goals, n)
  {
    if Needed(g, goals, n) {
      var q :| q in goals && Reaches(g, q, n);
      DoneIsMakeable(g, s, start, clock, q);
    }
  }
}
