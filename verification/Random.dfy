/** The additive-feedback random number generator (src/libc/random.c): a table used as a
  circular buffer with two pointers into it, and states that callers switch between.

  A state is an array of 32-bit words.  Word 0 holds the generator's type and, while the
  state is not in use, the position of the rear pointer; the table follows. */
module Random {
  import opened Options
  import opened Words

  const MAX_TYPES := 5

  const DEGREES: seq<nat> := [0, 7, 15, 31, 63]
  const SEPS: seq<nat> := [0, 3, 1, 3, 1]

  type Kind = t: nat | t < MAX_TYPES

  function Deg(t: Kind): (d: nat)
    ensures t != 0 ==> d > 0
  {
    DEGREES[t]
  }

  function Sep(t: Kind): (s: nat)
    ensures t != 0 ==> 0 < s < Deg(t)
  {
    SEPS[t]
  }

  // ---- What a generator is ----

  // The last values of the recurrence, oldest first, or the congruential generator's.
  datatype Gen = Lcg(x: ulong) | Additive(kind: Kind, window: seq<ulong>)

  ghost predicate GenOk(g: Gen) {
    g.Additive? ==> g.kind != 0 && |g.window| == Deg(g.kind)
  }

  function NextGen(g: Gen): (g': Gen)
    requires GenOk(g)
    ensures GenOk(g')
  {
    match g
    case Lcg(x) => Lcg((x * 1103515245 + 12345) % HALF)
    case Additive(t, w) => Additive(t, w[1..] + [(w[0] + w[Deg(t) - Sep(t)]) % ULONG_RANGE])
  }

  // The number that making g returned: the least significant bit is dropped.
  function Output(g: Gen): (r: ulong)
    requires GenOk(g)
  {
    match g
    case Lcg(x) => x
    case Additive(t, w) => w[|w| - 1] / 2
  }

  function Advance(g: Gen, n: nat): (g': Gen)
    requires GenOk(g)
    ensures GenOk(g') && (g'.Lcg? <==> g.Lcg?) && (g.Additive? ==> g'.kind == g.kind)
    decreases n
  {
    if n == 0 then g else NextGen(Advance(g, n - 1))
  }

  // The stream of values: those in the window, then one for each step.
  function Value(g: Gen, n: nat): (r: ulong)
    requires GenOk(g) && g.Additive?
  {
    var d := Deg(g.kind);
    if n < d then g.window[n] else Advance(g, n - d + 1).window[d - 1]
  }

  lemma {:induction false} WindowIsStream(g: Gen, n: nat, i: nat)
    requires GenOk(g) && g.Additive? && i < Deg(g.kind)
    ensures Advance(g, n).window[i] == Value(g, n + i)
    decreases n
  {
    if n > 0 && i < Deg(g.kind) - 1 {
      WindowIsStream(g, n - 1, i + 1);
    }
  }

  // Every value is the sum of the two that the trinomial names.
  lemma Recurrence(g: Gen, n: nat)
    requires GenOk(g) && g.Additive? && n >= Deg(g.kind)
    ensures Value(g, n) == (Value(g, n - Deg(g.kind)) + Value(g, n - Sep(g.kind))) % ULONG_RANGE
  {
    var d, s := Deg(g.kind), Sep(g.kind);
    WindowIsStream(g, n - d, 0);
    WindowIsStream(g, n - d, d - s);
  }

  // Each number returned is a stream value without its least significant bit.
  lemma OutputsAreStream(g: Gen, n: nat)
    requires GenOk(g) && g.Additive? && n > 0
    ensures Output(Advance(g, n)) == Value(g, Deg(g.kind) + n - 1) / 2
  {
    WindowIsStream(g, n, Deg(g.kind) - 1);
  }

  // ---- States as words ----

  // The table of a state, read from position f round to f again.
  function Window(table: seq<ulong>, d: nat, f: nat): (w: seq<ulong>)
    requires f <= d <= |table|
    ensures |w| == d
  {
    table[f..d] + table[..f]
  }

  // A state that can be switched to.
  predicate Saved(cells: seq<ulong>) {
    && |cells| >= 2
    && var t: Kind := cells[0] % MAX_TYPES;
       |cells| > Deg(t) && (t != 0 ==> cells[0] / MAX_TYPES < Deg(t))
  }

  // The generator that a saved state stands for.
  function SavedGen(cells: seq<ulong>): (g: Gen)
    requires Saved(cells)
    ensures GenOk(g)
  {
    var t: Kind := cells[0] % MAX_TYPES;
    if t == 0 then Lcg(cells[1])
    else Additive(t, Window(cells[1..], Deg(t), (cells[0] / MAX_TYPES + Sep(t)) % Deg(t)))
  }

  // The word that records a type and the rear pointer's position.
  function Recorded(t: Kind, r: nat): (w: nat)
    ensures w % MAX_TYPES == t && w / MAX_TYPES == r
  {
    MAX_TYPES * r + t
  }

  lemma RecordedGen(cells: seq<ulong>, t: Kind, r: nat)
    requires |cells| >= 2 && |cells| > Deg(t) && (t != 0 ==> r < Deg(t))
    requires cells[0] == Recorded(t, if t == 0 then 0 else r)
    ensures Saved(cells)
    ensures SavedGen(cells) == if t == 0 then Lcg(cells[1])
                               else Additive(t, Window(cells[1..], Deg(t), (r + Sep(t)) % Deg(t)))
  {
  }

  // The table that srandom makes from a seed.
  function Congruential(x: ulong, n: nat): (s: seq<ulong>)
    ensures |s| == n
    decreases n
  {
    if n == 0 then []
    else if n == 1 then [x]
    else
      var s := Congruential(x, n - 1);
      s + [(1103515245 * s[n - 2] + 12345) % ULONG_RANGE]
  }

  // The generator that srandom leaves.
  function SeededGen(t: Kind, x: ulong): (g: Gen)
    ensures GenOk(g)
  {
    if t == 0 then Lcg(x)
    else Advance(Additive(t, Window(Congruential(x, Deg(t)), Deg(t), Sep(t))), 10 * Deg(t))
  }

  // The type that initstate chooses for n bytes.
  function KindFor(n: nat): (r: Kind)
    requires n >= 8
  {
    if n < 32 then 0 else if n < 64 then 1 else if n < 128 then 2 else if n < 256 then 3 else 4
  }

  // The largest type of which the state fits: a word for the position, and the table, of one word in
  // the congruential generator.
  lemma KindForIs(n: nat, t: Kind)
    requires n >= 8
    ensures t <= KindFor(n) <==> 4 * (1 + if t == 0 then 1 else Deg(t)) <= n
  {
  }

  // The trinomials: x^7 + x^3 + 1, x^15 + x + 1, x^31 + x^3 + 1 and x^63 + x + 1.
  lemma Trinomials(g: Gen, n: nat)
    requires GenOk(g) && g.Additive? && n >= Deg(g.kind)
    ensures g.kind == 1 ==> Value(g, n) == (Value(g, n - 7) + Value(g, n - 3)) % ULONG_RANGE
    ensures g.kind == 2 ==> Value(g, n) == (Value(g, n - 15) + Value(g, n - 1)) % ULONG_RANGE
    ensures g.kind == 3 ==> Value(g, n) == (Value(g, n - 31) + Value(g, n - 3)) % ULONG_RANGE
    ensures g.kind == 4 ==> Value(g, n) == (Value(g, n - 63) + Value(g, n - 1)) % ULONG_RANGE
  {
    Recurrence(g, n);
  }

  // The seeded table begins with the seed, and each word comes from the one before.
  lemma {:induction false} SeededTable(x: ulong, n: nat, i: nat)
    requires i < n
    ensures Congruential(x, n)[i] ==
            if i == 0 then x else (1103515245 * Congruential(x, n)[i - 1] + 12345) % ULONG_RANGE
    decreases n
  {
    if i < n - 1 {
      SeededTable(x, n - 1, i);
    }
  }

  // The numbers of the congruential generator are those words without their highest bit.
  lemma {:induction false} LcgIsCongruential(x: ulong, n: nat)
    requires n > 0
    ensures Advance(Lcg(x), n) == Lcg(Congruential(x, n + 1)[n] % HALF)
    decreases n
  {
    var y: ulong := Congruential(x, n)[n - 1];
    var z := Advance(Lcg(x), n - 1).x;
    SeededTable(x, n + 1, n);
    SeededPrefix(x, n);
    if n > 1 {
      LcgIsCongruential(x, n - 1);
      ModAgain(y);
    }
    HighBitAside(y, z);
    assert Advance(Lcg(x), n) == NextGen(Lcg(z));
  }

  lemma ModAgain(v: nat)
    ensures v % HALF % HALF == v % HALF
  {
  }

  lemma SeededPrefix(x: ulong, n: nat)
    requires n > 0
    ensures Congruential(x, n + 1)[n - 1] == Congruential(x, n)[n - 1]
  {
  }

  const HALF := 0x8000_0000

  lemma ModShift(v: int, k: int)
    ensures (v + HALF * k) % HALF == v % HALF
  {
    assert v == HALF * (v / HALF) + v % HALF;
    assert v + HALF * k == HALF * (v / HALF + k) + v % HALF;
  }

  lemma HighBitAside(y: nat, z: nat)
    requires z % HALF == y % HALF
    ensures (z * 1103515245 + 12345) % HALF == (1103515245 * y + 12345) % ULONG_RANGE % HALF
  {
    var s := y % HALF;
    var v, w := 1103515245 * y + 12345, 1103515245 * s + 12345;
    ModShift(w, 1103515245 * (y / HALF));
    ModShift(w, 1103515245 * (z / HALF));
    ModShift(v % ULONG_RANGE, 2 * (v / ULONG_RANGE));
    assert y == HALF * (y / HALF) + s && z == HALF * (z / HALF) + s;
    assert v == w + HALF * (1103515245 * (y / HALF));
    assert z * 1103515245 + 12345 == w + HALF * (1103515245 * (z / HALF));
    assert v == v % ULONG_RANGE + HALF * (2 * (v / ULONG_RANGE));
  }

  // A seeded generator is 10 * degree steps into the stream that begins with its table, read from
  // the front pointer's place.
  lemma SeededStream(t: Kind, x: ulong, i: nat)
    requires t != 0 && i < Deg(t)
    ensures SeededGen(t, x).Additive? && SeededGen(t, x).kind == t
    ensures var g := Additive(t, Window(Congruential(x, Deg(t)), Deg(t), Sep(t)));
            && Value(g, i) == Congruential(x, Deg(t))[if i + Sep(t) < Deg(t) then i + Sep(t) else i + Sep(t) - Deg(t)]
            && SeededGen(t, x).window[i] == Value(g, 10 * Deg(t) + i)
  {
    var g := Additive(t, Window(Congruential(x, Deg(t)), Deg(t), Sep(t)));
    WindowIsStream(g, 10 * Deg(t), i);
  }

  // Reading one place further round moves the first value of the window to its end.
  lemma WindowStep(table: seq<ulong>, d: nat, f: nat)
    requires f < d <= |table|
    ensures Window(table, d, if f + 1 == d then 0 else f + 1) == Window(table, d, f)[1..] + [table[f]]
  {
    if f + 1 == d {
      assert table[f..d] == [table[f]] && table[0..d] == table[..f] + [table[f]];
    } else {
      assert table[f..d] == [table[f]] + table[f + 1..d] && table[..f + 1] == table[..f] + [table[f]];
    }
  }

  lemma Round(r: nat, s: nat, d: nat)
    requires r < d && s <= d
    ensures (r + s) % d == if r + s < d then r + s else r + s - d
  {
    var q := (r + s) / d;
    assert r + s == q * d + (r + s) % d;
    assert q >= 2 ==> q * d >= 2 * d;
    assert q == 1 ==> q * d == d;
  }

  // Where a pointer at r is after n moves round a table of d.
  function Turn(r: nat, n: nat, d: nat): (result: nat)
    decreases n
  {
    if n == 0 then r else if Turn(r, n - 1, d) + 1 == d then 0 else Turn(r, n - 1, d) + 1
  }

  lemma {:induction false} TurnAgain(r: nat, m: nat, n: nat, d: nat)
    ensures Turn(r, m + n, d) == Turn(Turn(r, m, d), n, d)
    decreases n
  {
    if n > 0 {
      TurnAgain(r, m, n - 1, d);
    }
  }

  lemma {:induction false} TurnPart(n: nat, d: nat)
    requires n < d
    ensures Turn(0, n, d) == n
  {
    if n > 0 {
      TurnPart(n - 1, d);
    }
  }

  // After any number of whole rounds a pointer is back at the start.
  lemma {:induction false} WholeRounds(k: nat, d: nat)
    requires d > 0
    ensures Turn(0, k * d, d) == 0
    decreases k
  {
    if k > 0 {
      WholeRounds(k - 1, d);
      TurnPart(d - 1, d);
      assert Turn(0, d, d) == 0;
      assert k * d == (k - 1) * d + d;
      TurnAgain(0, (k - 1) * d, d, d);
    }
  }

  lemma WindowPrefix(table: seq<ulong>, d: nat, f: nat)
    requires f <= d <= |table|
    ensures Window(table, d, f) == Window(table[..d], d, f)
  {
  }

  // Storing the sum at the front and moving on is a step of the recurrence.
  lemma AddWindow(table: seq<ulong>, d: nat, s: nat, f: nat, r: nat)
    requires 0 < s < d <= |table| && r < d && f == (r + s) % d
    ensures f < d && f != r
    ensures var v := (table[f] + table[r]) % ULONG_RANGE; var w := Window(table, d, f);
            w[0] == table[f] && w[d - s] == table[r] &&
            Window(table[f := v], d, if f + 1 == d then 0 else f + 1) == w[1..] + [v]
  {
    Round(r, s, d);
    var v := (table[f] + table[r]) % ULONG_RANGE;
    WindowStep(table[f := v], d, f);
    assert Window(table[f := v], d, f)[1..] == Window(table, d, f)[1..];
  }

  lemma StepIs(g: Gen, v: ulong)
    requires GenOk(g) && g.Additive? && v == (g.window[0] + g.window[Deg(g.kind) - Sep(g.kind)]) % ULONG_RANGE
    ensures NextGen(g) == Additive(g.kind, g.window[1..] + [v]) && Output(NextGen(g)) == v / 2
  {
  }

  // ---- Switching between states ----

  // random, setstate and initstate
  datatype Op = Draw | Switch(arg: array<ulong>) | Start(arg: array<ulong>, seed: ulong, n: nat)

  // The state in use, and the generator of every state that has been started.
  datatype Streams = Streams(cur: array<ulong>, gens: map<array<ulong>, Gen>)

  datatype Number = Number(from: array<ulong>, value: ulong)

  ghost predicate StreamsOk(s: Streams) {
    s.cur in s.gens && forall a | a in s.gens :: GenOk(s.gens[a])
  }

  // setstate is given another state than the one in use, and initstate room enough not to abort.
  predicate Allowed(s: Streams, arrays: set<array<ulong>>, op: Op) {
    match op
    case Draw => true
    case Switch(a) => a in s.gens && a != s.cur
    case Start(a, seed, n) => a in arrays && 8 <= n <= 4 * a.Length
  }

  function After(s: Streams, arrays: set<array<ulong>>, op: Op): (s': Streams)
    requires StreamsOk(s) && Allowed(s, arrays, op)
    ensures StreamsOk(s') && (s.gens.Keys <= arrays ==> s'.gens.Keys <= arrays)
  {
    match op
    case Draw => s.(gens := s.gens[s.cur := NextGen(s.gens[s.cur])])
    case Switch(a) => s.(cur := a)
    case Start(a, seed, n) => Streams(a, s.gens[a := SeededGen(KindFor(n), seed)])
  }

  // The numbers that an operation returns.
  function Returned(s: Streams, op: Op): (r: seq<Number>)
    requires StreamsOk(s)
  {
    if op.Draw? then [Number(s.cur, Output(NextGen(s.gens[s.cur])))] else []
  }

  // The states after a run and the numbers it returned, if every operation was allowed.
  function AfterAll(s: Streams, arrays: set<array<ulong>>, ops: seq<Op>): (r: Option<(Streams, seq<Number>)>)
    requires StreamsOk(s)
    ensures r.Some? ==> StreamsOk(r.value.0) && (s.gens.Keys <= arrays ==> r.value.0.gens.Keys <= arrays)
    decreases |ops|
  {
    if ops == [] then Some((s, []))
    else
      var n := |ops| - 1;
      var r := AfterAll(s, arrays, ops[..n]);
      if r.None? || !Allowed(r.value.0, arrays, ops[n]) then None
      else Some((After(r.value.0, arrays, ops[n]), r.value.1 + Returned(r.value.0, ops[n])))
  }

  // The numbers that came from one state.
  function From(numbers: seq<Number>, a: array<ulong>): (r: seq<ulong>)
    decreases |numbers|
  {
    if numbers == [] then []
    else
      var n := |numbers| - 1;
      From(numbers[..n], a) + if numbers[n].from == a then [numbers[n].value] else []
  }

  lemma FromAppend(numbers: seq<Number>, x: Number, a: array<ulong>)
    ensures From(numbers + [x], a) == From(numbers, a) + if x.from == a then [x.value] else []
  {
    assert (numbers + [x])[..|numbers|] == numbers;
  }

  // The first n numbers of a generator.
  function Outputs(g: Gen, n: nat): (r: seq<ulong>)
    requires GenOk(g)
    decreases n
  {
    if n == 0 then [] else Outputs(g, n - 1) + [Output(Advance(g, n))]
  }

  // The numbers from a are the first of g, and a's generator is where they leave it.
  ghost predicate Own(g: Gen, s: Streams, numbers: seq<Number>, a: array<ulong>)
    requires GenOk(g)
  {
    var k := |From(numbers, a)|;
    a in s.gens && s.gens[a] == Advance(g, k) && From(numbers, a) == Outputs(g, k)
  }

  lemma OwnNext(g: Gen, s: Streams, numbers: seq<Number>, a: array<ulong>, arrays: set<array<ulong>>, op: Op)
    requires GenOk(g) && StreamsOk(s) && Own(g, s, numbers, a)
    requires Allowed(s, arrays, op) && (op.Start? ==> op.arg != a)
    ensures Own(g, After(s, arrays, op), numbers + Returned(s, op), a)
  {
    if op.Draw? {
      FromAppend(numbers, Returned(s, op)[0], a);
    } else {
      assert numbers + [] == numbers;
    }
  }

  // However a run switches between states, the numbers that come from one of them are the first
  // of its generator, as if nothing else had been used in between.
  lemma {:induction false} OwnStream(s: Streams, arrays: set<array<ulong>>, ops: seq<Op>, a: array<ulong>)
    requires StreamsOk(s) && AfterAll(s, arrays, ops).Some? && a in s.gens
    requires forall i | 0 <= i < |ops| && ops[i].Start? :: ops[i].arg != a
    ensures var (s', numbers) := AfterAll(s, arrays, ops).value; Own(s.gens[a], s', numbers, a)
    decreases |ops|
  {
    if ops != [] {
      var n := |ops| - 1;
      OwnStream(s, arrays, ops[..n], a);
      var (t, numbers) := AfterAll(s, arrays, ops[..n]).value;
      OwnNext(s.gens[a], t, numbers, a, arrays, ops[n]);
    }
  }

  class Generator {
    var state: array<ulong>   // word 0 is the C code's state[-1]
    var kind: Kind
    var fptr: nat            // positions in the table
    var rptr: nat

    ghost predicate Valid()
      reads this, state
    {
      && state.Length >= 2 && state.Length > Deg(kind)
      && (kind != 0 ==> rptr < Deg(kind) && fptr == (rptr + Sep(kind)) % Deg(kind))
    }

    // The generator in use.
    ghost function Current(): (g: Gen)
      requires Valid()
      reads this, state
      ensures GenOk(g)
    {
      if kind == 0 then Lcg(state[1])
      else Additive(kind, Window(state[1..], Deg(kind), fptr))
    }

    // A generator in use from the start: a saved state.
    constructor (arg: array<ulong>)
      requires Saved(arg[..])
      ensures Valid() && state == arg && Current() == SavedGen(arg[..])
    {
      state := arg;
      var t: Kind := arg[0] % MAX_TYPES;
      kind := t;
      rptr := if t == 0 then 0 else arg[0] / MAX_TYPES;
      fptr := if t == 0 then 0 else (arg[0] / MAX_TYPES + Sep(t)) % Deg(t);
    }

    // random
    method Next() returns (i: ulong)
      requires Valid()
      modifies this`fptr, this`rptr, state
      ensures Valid() && state[0] == old(state[0])
      ensures Current() == NextGen(old(Current())) && i == Output(Current())
      ensures kind != 0 ==> rptr == if old(rptr) + 1 == Deg(kind) then 0 else old(rptr) + 1
    {
      if kind == 0 {
        var x: int := state[1];
        i := (x * 1103515245 + 12345) % HALF;
        state[1] := i;
      } else {
        i := Add();
      }
    }

    // The additive half of random.
    method Add() returns (i: ulong)
      requires Valid() && kind != 0
      modifies this`fptr, this`rptr, state
      ensures Valid() && state[0] == old(state[0])
      ensures Current() == NextGen(old(Current())) && i == Output(Current())
      ensures rptr == if old(rptr) + 1 == Deg(kind) then 0 else old(rptr) + 1
    {
      AddWindow(state[1..], Deg(kind), Sep(kind), fptr, rptr);
      ghost var table, g := state[1..], Current();
      var front: int, rear: int := state[1 + fptr], state[1 + rptr];
      var v: ulong := (front + rear) % ULONG_RANGE;
      state[1 + fptr] := v;
      assert state[1..] == table[fptr := v];
      i := state[1 + fptr] / 2;
      MovePointers();
      StepIs(g, v);
      assert Current() == Additive(kind, g.window[1..] + [v]);
    }

    // Both pointers move round by one.  The rear pointer is not tested when the front one
    // wraps, because they cannot both wrap.
    method MovePointers()
      requires Valid() && kind != 0
      modifies this`fptr, this`rptr
      ensures Valid()
      ensures fptr == if old(fptr) + 1 == Deg(kind) then 0 else old(fptr) + 1
      ensures rptr == if old(rptr) + 1 == Deg(kind) then 0 else old(rptr) + 1
    {
      Round(rptr, Sep(kind), Deg(kind));
      fptr := fptr + 1;
      if fptr >= Deg(kind) {
        fptr := 0;
        rptr := rptr + 1;
      } else {
        rptr := rptr + 1;
        if rptr >= Deg(kind) {
          rptr := 0;
        }
      }
      Round(rptr, Sep(kind), Deg(kind));
    }

    // srandom.  The rear pointer comes round to the start of the table again.
    method Seed(x: ulong)
      requires Valid()
      modifies this`fptr, this`rptr, state
      ensures Valid() && state[0] == old(state[0])
      ensures Current() == SeededGen(kind, x) && (kind != 0 ==> rptr == 0)
    {
      if kind == 0 {
        state[1] := x;
        return;
      }
      FillTable(x);
      fptr := Sep(kind);
      rptr := 0;
      Round(0, Sep(kind), Deg(kind));
      WindowPrefix(state[1..], Deg(kind), fptr);
      assert state[1..][..Deg(kind)] == state[1..1 + Deg(kind)];
      Cycle();
    }

    // i numbers have been discarded since the generator was g.
    ghost predicate Discarded(g: Gen, i: nat, d: nat)
      reads this, state
    {
      && Valid() && kind != 0 && d == Deg(kind) && GenOk(g)
      && Current() == Advance(g, i) && rptr == Turn(0, i, d)
    }

    method Discard(ghost g: Gen, ghost i: nat, ghost d: nat)
      requires Discarded(g, i, d)
      modifies this`fptr, this`rptr, state
      ensures Discarded(g, i + 1, d) && state[0] == old(state[0])
    {
      var _ := Next();
    }

    // The loop of srandom that discards numbers.
    method Cycle()
      requires Valid() && kind != 0 && rptr == 0
      modifies this`fptr, this`rptr, state
      ensures Valid() && state[0] == old(state[0]) && rptr == 0
      ensures Current() == Advance(old(Current()), 10 * Deg(kind))
    {
      ghost var g := Current();
      var d := Deg(kind);
      WholeRounds(10, d);
      for i := 0 to 10 * d
        invariant Discarded(g, i, d) && state[0] == old(state[0])
      {
        Discard(g, i, d);
      }
    }

    // The loop of srandom that fills the table.
    method FillTable(x: ulong)
      requires Valid() && kind != 0
      modifies state
      ensures Valid() && state[0] == old(state[0])
      ensures state[1..1 + Deg(kind)] == Congruential(x, Deg(kind))
    {
      state[1] := x;
      for i := 1 to Deg(kind)
        invariant Valid() && state[0] == old(state[0])
        invariant state[1..1 + i] == Congruential(x, i)
      {
        var prev: int := state[i];
        assert state[i] == Congruential(x, i)[i - 1];
        state[1 + i] := (1103515245 * prev + 12345) % ULONG_RANGE;
        assert state[1..1 + i + 1] == state[1..1 + i] + [state[1 + i]];
      }
    }

    // The word that records the type and the rear pointer's position.
    ghost function PositionWord(): (w: nat)
      reads this
      ensures w == Recorded(kind, if kind == 0 then 0 else rptr)
    {
      if kind == 0 then 0 else MAX_TYPES * rptr + kind
    }

    // What initstate and setstate do first: the position goes into word 0.
    method Save()
      requires Valid()
      modifies state
      ensures Valid() && state[..] == old(state[..])[0 := PositionWord()]
      ensures Saved(state[..]) && SavedGen(state[..]) == old(Current()) == Current()
    {
      state[0] := if kind == 0 then kind else MAX_TYPES * rptr + kind;
      assert state[..][1..] == state[1..] == old(state[1..]);
      RecordedGen(state[..], kind, rptr);
    }

    // initstate: false stands for abort
    method InitState(seed: ulong, arg: array<ulong>, n: nat) returns (ok: bool, ostate: array<ulong>)
      requires Valid() && n <= 4 * arg.Length
      modifies this, state, arg
      ensures ok <==> n >= 8
      ensures ostate == old(state)
      ensures ok ==> Valid() && state == arg && kind == KindFor(n) && Current() == SeededGen(kind, seed)
      ensures ok ==> Saved(arg[..]) && SavedGen(arg[..]) == Current()
      ensures arg != ostate ==> Saved(ostate[..]) && SavedGen(ostate[..]) == old(Current())
    {
      ostate := state;
      Save();
      if n < 8 {
        return false, ostate;
      }
      kind := KindFor(n);
      state := arg;
      // until srandom sets them, the pointers are still those of the old table
      rptr := 0;
      fptr := if kind == 0 then 0 else Sep(kind);
      if kind != 0 { Round(0, Sep(kind), Deg(kind)); }
      Seed(seed);
      Save();
      ok := true;
    }

    // setstate.  The type and position are read before the state in use is saved.
    method SetState(arg: array<ulong>) returns (ostate: array<ulong>)
      requires Valid() && Saved(arg[..])
      modifies this, state
      ensures Valid() && state == arg && ostate == old(state)
      ensures Current() == SavedGen(old(arg[..]))
      ensures arg != ostate ==> Saved(ostate[..]) && SavedGen(ostate[..]) == old(Current())
      ensures arg == ostate && old(kind) != 0 ==>
                ((kind, rptr, fptr) == old((kind, rptr, fptr)) <==> old(arg[0] == PositionWord()))
    {
      var t: Kind := arg[0] % MAX_TYPES;
      var rear := arg[0] / MAX_TYPES;
      ghost var cells := arg[..];
      ostate := state;
      Save();
      kind := t;
      state := arg;
      if kind != 0 {
        rptr := rear;
        fptr := (rear + Sep(kind)) % Deg(kind);
      }
      assert arg[1..] == cells[1..];
    }

    // The generator in use and those of the saved states are as given.
    ghost predicate Holds(s: Streams)
      reads this, state, s.gens.Keys
    {
      && Valid() && s.cur == state && StreamsOk(s) && Current() == s.gens[state]
      && forall a | a in s.gens && a != state :: Saved(a[..]) && SavedGen(a[..]) == s.gens[a]
    }

    method Do(op: Op, ghost s: Streams, ghost arrays: set<array<ulong>>) returns (numbers: seq<Number>)
      requires Holds(s) && s.gens.Keys <= arrays && Allowed(s, arrays, op)
      modifies this, arrays
      ensures Holds(After(s, arrays, op)) && numbers == Returned(s, op)
    {
      numbers := [];
      match op {
        case Draw =>
          var i := Next();
          numbers := [Number(state, i)];
        case Switch(a) =>
          var _ := SetState(a);
        case Start(a, seed, n) =>
          var _, _ := InitState(seed, a, n);
      }
    }

    // Any run of random, setstate and initstate over any states.
    method DoAll(ops: seq<Op>, ghost s: Streams, ghost arrays: set<array<ulong>>) returns (numbers: seq<Number>)
      requires Holds(s) && s.gens.Keys <= arrays && AfterAll(s, arrays, ops).Some?
      modifies this, arrays
      ensures var (s', returned) := AfterAll(s, arrays, ops).value;
              Holds(s') && numbers == returned
      decreases |ops|
    {
      if ops == [] {
        return [];
      }
      var n := |ops| - 1;
      numbers := DoAll(ops[..n], s, arrays);
      var more := Do(ops[n], AfterAll(s, arrays, ops[..n]).value.0, arrays);
      numbers := numbers + more;
    }
  }
}
