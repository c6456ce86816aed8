/** Resource maps (src/libc/rmap.c): an array of free extents, kept in order and coalesced,
  whose first element is a header holding the number of extents and of slots. */
module ResourceMap {
  import opened Words

  datatype Extent = Extent(off: nat, size: nat)

  type Extents = seq<Extent>

  function End(e: Extent): (r: nat) {
    e.off + e.size
  }

  predicate Covers(e: Extent, x: int) {
    e.off <= x < End(e)
  }

  // x is free.
  ghost predicate InFree(s: Extents, x: int) {
    exists i | 0 <= i < |s| :: Covers(s[i], x)
  }

  predicate ExtentOk(e: Extent) {
    0 < e.off && 0 < e.size && End(e) <= ULONG_RANGE
  }

  // In ascending order, not empty, not overlapping, and not adjacent.
  ghost predicate Canonical(s: Extents) {
    && (forall i | 0 <= i < |s| :: ExtentOk(s[i]))
    && (forall i, j | 0 <= i < j < |s| :: End(s[i]) < s[j].off)
  }

  function Total(s: Extents): (r: nat) {
    if s == [] then 0 else s[0].size + Total(s[1..])
  }

  // ---- Canonical maps ----

  lemma CanonicalTail(s: Extents)
    requires Canonical(s) && s != []
    ensures Canonical(s[1..])
    ensures forall x :: InFree(s, x) <==> Covers(s[0], x) || InFree(s[1..], x)
  {
    forall x ensures InFree(s, x) <==> Covers(s[0], x) || InFree(s[1..], x) {
      if InFree(s, x) {
        var i :| 0 <= i < |s| && Covers(s[i], x);
        assert i > 0 ==> Covers(s[1..][i - 1], x);
      }
      if InFree(s[1..], x) {
        var i :| 0 <= i < |s[1..]| && Covers(s[1..][i], x);
        assert Covers(s[i + 1], x);
      }
    }
  }

  // The unit after an extent is not free.
  lemma GapAfter(s: Extents, i: nat)
    requires Canonical(s) && i < |s|
    ensures !InFree(s, End(s[i]))
  {
    forall j | 0 <= j < |s| ensures !Covers(s[j], End(s[i])) {
      if j < i {
        assert End(s[j]) < s[i].off;
      } else if i < j {
        assert End(s[i]) < s[j].off;
      }
    }
  }

  // size free units begin at a.
  ghost predicate FreeRun(s: Extents, a: int, size: nat) {
    forall x | a <= x < a + size :: InFree(s, x)
  }

  // A run of free units lies within one extent.
  lemma RunInExtent(s: Extents, a: int, size: nat) returns (i: nat)
    requires Canonical(s) && FreeRun(s, a, size) && size > 0
    ensures i < |s| && s[i].off <= a && a + size <= End(s[i])
  {
    assert InFree(s, a);
    i :| 0 <= i < |s| && Covers(s[i], a);
    GapAfter(s, i);
    var e := End(s[i]);
    assert e < a + size ==> InFree(s, e);
  }

  lemma FirstIsFree(s: Extents)
    requires Canonical(s) && s != []
    ensures InFree(s, s[0].off)
  {
    assert Covers(s[0], s[0].off);
  }

  // The free units determine the map: two canonical maps with the same free units are
  // the same, however they came about.
  lemma {:induction false} CanonicalUnique(s: Extents, t: Extents)
    requires Canonical(s) && Canonical(t)
    requires forall x :: InFree(s, x) <==> InFree(t, x)
    ensures s == t
    decreases |s|
  {
    if s == [] || t == [] {
      if s != [] { FirstIsFree(s); }
      if t != [] { FirstIsFree(t); }
    } else {
      FirstCovers(s, t);
      FirstCovers(t, s);
      CanonicalTail(s);
      CanonicalTail(t);
      forall x ensures InFree(s[1..], x) <==> InFree(t[1..], x) {
        TailAbove(s, x);
        TailAbove(t, x);
      }
      CanonicalUnique(s[1..], t[1..]);
      assert s == [s[0]] + s[1..] && t == [t[0]] + t[1..];
    }
  }

  lemma FirstCovers(s: Extents, t: Extents)
    requires Canonical(s) && Canonical(t) && s != [] && t != []
    requires forall x :: InFree(s, x) ==> InFree(t, x)
    ensures t[0].off <= s[0].off
    ensures t[0].off == s[0].off ==> End(s[0]) <= End(t[0])
  {
    forall x | Covers(s[0], x) ensures InFree(t, x) {
      assert InFree(s, x);
    }
    var i := RunInExtent(t, s[0].off, s[0].size);
    assert i > 0 ==> End(t[0]) < t[i].off;
  }

  lemma TailAbove(s: Extents, x: int)
    requires Canonical(s) && s != []
    ensures InFree(s[1..], x) ==> x > End(s[0])
  {
    if InFree(s[1..], x) {
      var i :| 0 <= i < |s[1..]| && Covers(s[1..][i], x);
      assert End(s[0]) < s[i + 1].off;
    }
  }

  // ---- Allocation ----

  // The first extent that is large enough, or the number of extents.
  function FirstFit(s: Extents, size: nat): (i: nat)
    ensures i <= |s| && (i < |s| ==> s[i].size >= size)
    ensures forall j | 0 <= j < i :: s[j].size < size
  {
    if s == [] || s[0].size >= size then 0 else 1 + FirstFit(s[1..], size)
  }

  function AllocIndex(s: Extents, size: nat): (r: nat) {
    var i := FirstFit(s, size);
    if i < |s| then s[i].off else 0
  }

  function AllocRest(s: Extents, size: nat): (r: Extents) {
    var i := FirstFit(s, size);
    if i == |s| then s
    else if s[i].size > size then s[i := Extent(s[i].off + size, s[i].size - size)]
    else s[..i] + s[i + 1..]
  }

  // Allocation fails exactly when there is no run of that many free units, and otherwise
  // returns the lowest place where one begins.
  lemma AllocLowest(s: Extents, size: nat)
    requires Canonical(s) && size > 0
    ensures AllocIndex(s, size) == 0 <==> !exists a :: FreeRun(s, a, size)
    ensures AllocIndex(s, size) != 0 ==> FreeRun(s, AllocIndex(s, size), size)
    ensures forall a | FreeRun(s, a, size) :: AllocIndex(s, size) <= a
  {
    var f := FirstFit(s, size);
    if f < |s| {
      forall x | s[f].off <= x < s[f].off + size ensures InFree(s, x) {
        assert Covers(s[f], x);
      }
      assert ExtentOk(s[f]) && FreeRun(s, s[f].off, size);
    }
    forall a | FreeRun(s, a, size) ensures f < |s| && s[f].off <= a {
      var i := RunInExtent(s, a, size);
      assert f < i ==> End(s[f]) < s[i].off;
    }
  }

  // What allocation leaves: a canonical map without the allocated units, and smaller by
  // their number.
  lemma AllocTakes(s: Extents, size: nat)
    requires Canonical(s) && size > 0 && AllocIndex(s, size) != 0
    ensures Canonical(AllocRest(s, size))
    ensures forall x :: InFree(AllocRest(s, size), x) <==>
              InFree(s, x) && !(AllocIndex(s, size) <= x < AllocIndex(s, size) + size)
    ensures Total(AllocRest(s, size)) == Total(s) - size
    ensures |AllocRest(s, size)| <= |s|
  {
    var i, t := FirstFit(s, size), AllocRest(s, size);
    if s[i].size > size {
      TotalUpdate(s, i, t[i]);
      forall x ensures InFree(t, x) <==> InFree(s, x) && !(s[i].off <= x < s[i].off + size) {
        forall j | 0 <= j < |s|
          ensures Covers(t[j], x) <==> Covers(s[j], x) && !(s[i].off <= x < s[i].off + size)
        {
          assert j < i ==> End(s[j]) < s[i].off;
          assert i < j ==> End(s[i]) < s[j].off;
        }
        assert InFree(s, x) ==> exists j | 0 <= j < |s| :: Covers(s[j], x);
      }
    } else {
      TotalRemove(s, i);
      forall x ensures InFree(t, x) <==> InFree(s, x) && !(s[i].off <= x < s[i].off + size) {
        RemovedCovers(s, i, x);
      }
    }
  }

  lemma RemovedCovers(s: Extents, i: nat, x: int)
    requires Canonical(s) && i < |s|
    ensures InFree(s[..i] + s[i + 1..], x) <==> InFree(s, x) && !Covers(s[i], x)
  {
    var t := s[..i] + s[i + 1..];
    forall j | 0 <= j < |s| && j != i ensures Covers(s[j], x) ==> InFree(t, x) && !Covers(s[i], x) {
      assert t[if j < i then j else j - 1] == s[j];
      assert j < i ==> End(s[j]) < s[i].off;
      assert i < j ==> End(s[i]) < s[j].off;
    }
    forall j | 0 <= j < |t| ensures Covers(t[j], x) ==> InFree(s, x) && !Covers(s[i], x) {
      var k := if j < i then j else j + 1;
      assert t[j] == s[k];
      assert k < i ==> End(s[k]) < s[i].off;
      assert i < k ==> End(s[i]) < s[k].off;
    }
  }

  lemma {:induction false} TotalUpdate(s: Extents, i: nat, e: Extent)
    requires i < |s|
    ensures Total(s[i := e]) == Total(s) - s[i].size + e.size
    decreases |s|
  {
    if i > 0 {
      assert s[i := e][1..] == s[1..][i - 1 := e];
      TotalUpdate(s[1..], i - 1, e);
    }
  }

  lemma {:induction false} TotalRemove(s: Extents, i: nat)
    requires i < |s|
    ensures Total(s[..i] + s[i + 1..]) == Total(s) - s[i].size
    decreases |s|
  {
    var t := s[..i] + s[i + 1..];
    if i == 0 {
      assert t == s[1..];
    } else {
      assert t[1..] == s[1..][..i - 1] + s[1..][i..];
      TotalRemove(s[1..], i - 1);
    }
  }

  // ---- Freeing ----

  datatype Freed = Freed(rest: Extents, lost: nat)

  // The map after freeing size units at off, when there is or is not room for one more
  // extent, and the units lost because there is not.
  function FreeInto(s: Extents, off: nat, size: nat, room: bool): (r: Freed) {
    if s == [] then
      if room then Freed([Extent(off, size)], 0) else Freed([], size)
    else if End(s[0]) == off then
      if |s| > 1 && off + size == s[1].off
      then Freed([Extent(s[0].off, s[0].size + size + s[1].size)] + s[2..], 0)
      else Freed([Extent(s[0].off, s[0].size + size)] + s[1..], 0)
    else if off + size == s[0].off then
      Freed([Extent(off, size + s[0].size)] + s[1..], 0)
    else if off < s[0].off then
      if room then Freed([Extent(off, size)] + s, 0) else Freed(s, size)
    else
      var r := FreeInto(s[1..], off, size, room);
      Freed([s[0]] + r.rest, r.lost)
  }

  // What may be freed: units that exist and are not free already.
  ghost predicate Freeable(s: Extents, off: nat, size: nat) {
    && 0 < off && 0 < size && off + size <= ULONG_RANGE
    && forall x | off <= x < off + size :: !InFree(s, x)
  }

  // The freed units touch a free unit on one side or the other.
  ghost predicate Adjacent(s: Extents, off: nat, size: nat) {
    InFree(s, off - 1) || InFree(s, off + size)
  }

  // Where the freed units lie relative to the first extent.
  lemma Beside(s: Extents, off: nat, size: nat)
    requires Canonical(s) && s != [] && Freeable(s, off, size)
    ensures off + size <= s[0].off || End(s[0]) <= off
    ensures Freeable(s[1..], off, size)
    ensures |s| > 1 && End(s[0]) <= off ==> off + size <= s[1].off || End(s[1]) <= off
  {
    CanonicalTail(s);
    FirstBeside(s, off, size);
    if |s| > 1 {
      FirstBeside(s[1..], off, size);
    }
  }

  lemma FirstBeside(s: Extents, off: nat, size: nat)
    requires Canonical(s) && s != [] && Freeable(s, off, size)
    ensures off + size <= s[0].off || End(s[0]) <= off
  {
    var a := s[0].off;
    assert Covers(s[0], a) && ExtentOk(s[0]) && InFree(s, a);
    assert Covers(s[0], off) ==> InFree(s, off);
  }

  lemma BelowAll(s: Extents, x: int)
    requires Canonical(s) && (s != [] ==> x < s[0].off)
    ensures !InFree(s, x)
  {
    forall j | 0 <= j < |s| ensures !Covers(s[j], x) {
      assert j > 0 ==> End(s[0]) < s[j].off;
    }
  }

  lemma InFreeCons(e: Extent, t: Extents, x: int)
    ensures InFree([e] + t, x) <==> Covers(e, x) || InFree(t, x)
  {
    var s := [e] + t;
    if InFree(s, x) {
      var i :| 0 <= i < |s| && Covers(s[i], x);
      assert i > 0 ==> Covers(t[i - 1], x);
    }
    if InFree(t, x) {
      var i :| 0 <= i < |t| && Covers(t[i], x);
      assert Covers(s[i + 1], x);
    }
    assert Covers(s[0], x) ==> InFree(s, x);
  }

  lemma CanonicalCons(e: Extent, t: Extents)
    requires Canonical(t) && ExtentOk(e) && (t != [] ==> End(e) < t[0].off)
    ensures Canonical([e] + t)
  {
    var s := [e] + t;
    forall i, j | 0 <= i < j < |s| ensures End(s[i]) < s[j].off {
      assert s[j] == t[j - 1];
      assert i > 0 ==> s[i] == t[i - 1];
      assert j > 1 ==> End(t[0]) < t[j - 1].off;
    }
  }

  // A freed map is canonical and has free what it should, and the units add up.
  ghost predicate FreedOk(s: Extents, off: nat, size: nat, room: bool, r: Freed) {
    && Canonical(r.rest)
    && r.lost == (if room || Adjacent(s, off, size) then 0 else size)
    && (forall x :: InFree(r.rest, x) <==> InFree(s, x) || (r.lost == 0 && off <= x < off + size))
    && Total(r.rest) + r.lost == Total(s) + size
    && |r.rest| <= |s| + (if room then 1 else 0)
  }

  lemma FreeAtEnd(off: nat, size: nat, room: bool)
    requires Freeable([], off, size)
    ensures FreedOk([], off, size, room, FreeInto([], off, size, room))
  {
    forall x ensures InFree([Extent(off, size)], x) <==> off <= x < off + size {
      InFreeCons(Extent(off, size), [], x);
      assert [Extent(off, size)] + [] == [Extent(off, size)];
    }
  }

  // An extent put in front of t, which has the units of s[0], of the freed ones and perhaps more.
  lemma FreedWith(s: Extents, off: nat, size: nat, room: bool, e: Extent, t: Extents)
    requires Canonical(s) && s != [] && Canonical(t) && ExtentOk(e) && (t != [] ==> End(e) < t[0].off)
    requires FreeInto(s, off, size, room) == Freed([e] + t, 0) && Adjacent(s, off, size) && |t| < |s|
    requires e.size + Total(t) == Total(s) + size
    requires forall x :: Covers(e, x) || InFree(t, x) <==> InFree(s, x) || off <= x < off + size
    ensures FreedOk(s, off, size, room, FreeInto(s, off, size, room))
  {
    CanonicalCons(e, t);
    assert ([e] + t)[1..] == t;
    forall x ensures InFree([e] + t, x) <==> InFree(s, x) || off <= x < off + size {
      InFreeCons(e, t, x);
    }
  }

  lemma FreeAfterFirst(s: Extents, off: nat, size: nat, room: bool)
    requires Canonical(s) && s != [] && Freeable(s, off, size) && End(s[0]) == off
    ensures FreedOk(s, off, size, room, FreeInto(s, off, size, room))
  {
    Beside(s, off, size);
    CanonicalTail(s);
    assert Covers(s[0], off - 1) && InFree(s, off - 1);
    if |s| > 1 && off + size == s[1].off {
      FreeBetween(s, off, size, room);
    } else {
      FreedWith(s, off, size, room, Extent(s[0].off, s[0].size + size), s[1..]);
    }
  }

  lemma FreeBetween(s: Extents, off: nat, size: nat, room: bool)
    requires Canonical(s) && |s| > 1 && Freeable(s, off, size) && End(s[0]) == off && off + size == s[1].off
    requires Adjacent(s, off, size)
    ensures FreedOk(s, off, size, room, FreeInto(s, off, size, room))
  {
    var e, t := Extent(s[0].off, s[0].size + size + s[1].size), s[2..];
    CanonicalTail(s);
    CanonicalTail(s[1..]);
    assert s[1..][1..] == t;
    assert t != [] ==> End(s[1]) < t[0].off;
    FreedWith(s, off, size, room, e, t);
  }

  lemma FreeBeforeFirst(s: Extents, off: nat, size: nat, room: bool)
    requires Canonical(s) && s != [] && Freeable(s, off, size) && off < s[0].off
    ensures FreedOk(s, off, size, room, FreeInto(s, off, size, room))
  {
    Beside(s, off, size);
    CanonicalTail(s);
    var joins := off + size == s[0].off;
    var e := if joins then Extent(off, size + s[0].size) else Extent(off, size);
    var t := if joins then s[1..] else s;
    assert Covers(s[0], s[0].off);
    BelowAll(s, off - 1);
    if !joins {
      BelowAll(s, off + size);
    }
    if joins || room {
      CanonicalCons(e, t);
      assert FreeInto(s, off, size, room) == Freed([e] + t, 0);
      assert ([e] + t)[1..] == t;
      forall x ensures InFree([e] + t, x) <==> InFree(s, x) || off <= x < off + size {
        InFreeCons(e, t, x);
      }
    }
  }

  // The first extent after freeing is the freed one or the old first one.
  lemma FreedFirst(s: Extents, off: nat, size: nat, room: bool)
    ensures var t := FreeInto(s, off, size, room).rest;
            t != [] ==> t[0].off == off || (s != [] && t[0].off == s[0].off)
  {
  }

  lemma AdjacentPastFirst(s: Extents, off: nat, size: nat)
    requires Canonical(s) && s != [] && End(s[0]) < off
    ensures Adjacent(s, off, size) <==> Adjacent(s[1..], off, size)
  {
    CanonicalTail(s);
  }

  // Freeing further on leaves the first extent apart from what follows it.
  lemma PastFirstCanonical(s: Extents, off: nat, size: nat, room: bool)
    requires Canonical(s) && s != [] && End(s[0]) < off
    requires Canonical(FreeInto(s[1..], off, size, room).rest)
    ensures Canonical([s[0]] + FreeInto(s[1..], off, size, room).rest)
  {
    FreedFirst(s[1..], off, size, room);
    assert |s| > 1 ==> s[1..][0] == s[1] && End(s[0]) < s[1].off;
    CanonicalCons(s[0], FreeInto(s[1..], off, size, room).rest);
  }

  lemma TotalCons(e: Extent, t: Extents)
    ensures Total([e] + t) == e.size + Total(t)
  {
    assert ([e] + t)[1..] == t;
  }

  lemma FreePastFirst(s: Extents, off: nat, size: nat, room: bool)
    requires Canonical(s) && s != [] && Freeable(s, off, size) && End(s[0]) < off
    requires FreedOk(s[1..], off, size, room, FreeInto(s[1..], off, size, room))
    ensures FreedOk(s, off, size, room, FreeInto(s, off, size, room))
  {
    var r := FreeInto(s[1..], off, size, room);
    AdjacentPastFirst(s, off, size);
    PastFirstCanonical(s, off, size, room);
    TotalCons(s[0], r.rest);
    PastFirstUnits(s, r, off, size);
    assert FreeInto(s, off, size, room) == Freed([s[0]] + r.rest, r.lost);
  }

  lemma PastFirstUnits(s: Extents, r: Freed, off: nat, size: nat)
    requires Canonical(s) && s != []
    requires forall x :: InFree(r.rest, x) <==> InFree(s[1..], x) || (r.lost == 0 && off <= x < off + size)
    ensures forall x :: InFree([s[0]] + r.rest, x) <==> InFree(s, x) || (r.lost == 0 && off <= x < off + size)
  {
    CanonicalTail(s);
    forall x ensures InFree([s[0]] + r.rest, x) <==> InFree(s, x) || (r.lost == 0 && off <= x < off + size) {
      InFreeCons(s[0], r.rest, x);
    }
  }

  // Freeing keeps the map canonical; it loses the units exactly when there is no room and
  // they touch no free unit, and otherwise adds exactly them; units are never created.
  lemma {:induction false} FreeAdds(s: Extents, off: nat, size: nat, room: bool)
    requires Canonical(s) && Freeable(s, off, size)
    ensures FreedOk(s, off, size, room, FreeInto(s, off, size, room))
    decreases |s|
  {
    if s == [] {
      FreeAtEnd(off, size, room);
    } else if End(s[0]) == off {
      FreeAfterFirst(s, off, size, room);
    } else if off < s[0].off {
      FreeBeforeFirst(s, off, size, room);
    } else {
      Beside(s, off, size);
      CanonicalTail(s);
      FreeAdds(s[1..], off, size, room);
      FreePastFirst(s, off, size, room);
    }
  }

  // ---- Runs ----

  datatype Op = AllocOp(size: nat) | FreeOp(off: nat, size: nat)

  datatype State = State(free: Extents, slots: nat, lost: nat, held: int)

  predicate Full(st: State) {
    st.slots == |st.free|
  }

  function Step(st: State, op: Op): (r: State) {
    match op
    case AllocOp(size) =>
      if AllocIndex(st.free, size) == 0 then st
      else st.(free := AllocRest(st.free, size), held := st.held + size)
    case FreeOp(off, size) =>
      var r := FreeInto(st.free, off, size, !Full(st));
      State(r.rest, st.slots, st.lost + r.lost, st.held - size)
  }

  // Each operation is one the map's users may ask for.
  ghost predicate Legal(st: State, ops: seq<Op>)
    decreases |ops|
  {
    ops != [] ==>
      && (match ops[0]
          case AllocOp(size) => size > 0
          case FreeOp(off, size) => Freeable(st.free, off, size))
      && Legal(Step(st, ops[0]), ops[1..])
  }

  function Run(st: State, ops: seq<Op>): (r: State)
    decreases |ops|
  {
    if ops == [] then st else Run(Step(st, ops[0]), ops[1..])
  }

  function Units(st: State): (r: int) {
    Total(st.free) + st.held + st.lost
  }

  ghost predicate StateOk(st: State) {
    Canonical(st.free) && |st.free| <= st.slots
  }

  // Over every run the map stays canonical and within its slots, and no unit appears or
  // disappears.
  lemma {:induction false} RunConserves(st: State, ops: seq<Op>)
    requires StateOk(st) && Legal(st, ops)
    ensures StateOk(Run(st, ops)) && Units(Run(st, ops)) == Units(st)
    decreases |ops|
  {
    if ops != [] {
      match ops[0] {
        case AllocOp(size) =>
          if AllocIndex(st.free, size) != 0 {
            AllocTakes(st.free, size);
          }
        case FreeOp(off, size) =>
          FreeAdds(st.free, off, size, !Full(st));
      }
      RunConserves(Step(st, ops[0]), ops[1..]);
    }
  }

  // Of AllocTakes, what does not speak of single units.
  lemma AllocKeeps(s: Extents, size: nat)
    requires Canonical(s) && size > 0 && AllocIndex(s, size) != 0
    ensures Canonical(AllocRest(s, size)) && Total(AllocRest(s, size)) == Total(s) - size
    ensures |AllocRest(s, size)| <= |s|
  {
    AllocTakes(s, size);
  }

  // ---- The set of free units over a run ----

  ghost function FreeUnits(s: Extents): (r: set<int>) {
    set x: int | 0 <= x < ULONG_RANGE && InFree(s, x)
  }

  // size units of f begin at a.
  ghost predicate RunAt(f: set<int>, a: int, size: nat) {
    forall x | a <= x < a + size :: x in f
  }

  // size units of f begin at a, and nowhere below.
  ghost predicate Lowest(f: set<int>, a: nat, size: nat) {
    RunAt(f, a, size) && forall b | RunAt(f, b, size) :: a <= b
  }

  predicate BeginsPiece(f: set<int>, x: int) {
    x in f && x - 1 !in f
  }

  // The units of f with none of f before them: as many as f has pieces.
  function Starts(f: set<int>): (r: set<int>) {
    set x | x in f && BeginsPiece(f, x)
  }

  function UnitsOf(e: Extent): (r: set<int>) {
    set x: int | e.off <= x < End(e) && Covers(e, x)
  }

  // What an operation makes of the set of free units.  Only when there are as many pieces as
  // slots and the freed units touch none of them is there nowhere to put them.
  ghost function StepUnits(f: set<int>, slots: nat, op: Op): (r: set<int>) {
    match op
    case AllocOp(size) =>
      if a: nat :| Lowest(f, a, size) then f - UnitsOf(Extent(a, size)) else f
    case FreeOp(off, size) =>
      if |Starts(f)| == slots && off - 1 !in f && off + size !in f then f
      else f + UnitsOf(Extent(off, size))
  }

  ghost function RunUnits(f: set<int>, slots: nat, ops: seq<Op>): (r: set<int>)
    decreases |ops|
  {
    if ops == [] then f else RunUnits(StepUnits(f, slots, ops[0]), slots, ops[1..])
  }

  lemma FreeUnitsIs(s: Extents)
    requires Canonical(s)
    ensures forall x :: x in FreeUnits(s) <==> InFree(s, x)
  {
    forall x | InFree(s, x) ensures x in FreeUnits(s) {
      var i :| 0 <= i < |s| && Covers(s[i], x);
      assert ExtentOk(s[i]);
    }
  }

  lemma UnitsEqual(s: Extents, f: set<int>)
    requires Canonical(s) && forall x :: InFree(s, x) <==> x in f
    ensures FreeUnits(s) == f
  {
    FreeUnitsIs(s);
  }

  // A canonical map has one extent for each piece.
  lemma {:induction false} OnePerPiece(s: Extents)
    requires Canonical(s)
    ensures |Starts(FreeUnits(s))| == |s|
    decreases |s|
  {
    if s == [] {
      assert Starts(FreeUnits(s)) == {};
    } else {
      CanonicalTail(s);
      OnePerPiece(s[1..]);
      var f, t := FreeUnits(s), FreeUnits(s[1..]);
      forall x ensures x in Starts(f) <==> x == s[0].off || x in Starts(t) {
        StartsCons(s, x);
      }
      assert Starts(f) == {s[0].off} + Starts(t);
      TailAbove(s, s[0].off);
    }
  }

  lemma StartsCons(s: Extents, x: int)
    requires Canonical(s) && s != []
    ensures x in Starts(FreeUnits(s)) <==> x == s[0].off || x in Starts(FreeUnits(s[1..]))
  {
    CanonicalTail(s);
    assert ExtentOk(s[0]);
    FreeUnitsIs(s);
    FreeUnitsIs(s[1..]);
    TailAbove(s, x);
    TailAbove(s, x - 1);
    BelowAll(s, s[0].off - 1);
  }

  lemma RunsAgree(s: Extents, b: int, size: nat)
    requires Canonical(s)
    ensures FreeRun(s, b, size) <==> RunAt(FreeUnits(s), b, size)
  {
    FreeUnitsIs(s);
  }

  lemma TakenUnits(s: Extents, size: nat)
    requires Canonical(s) && size > 0 && AllocIndex(s, size) != 0
    ensures FreeUnits(AllocRest(s, size)) == FreeUnits(s) - UnitsOf(Extent(AllocIndex(s, size), size))
  {
    var t, a := AllocRest(s, size), AllocIndex(s, size);
    AllocTakes(s, size);
    FreeUnitsIs(s);
    forall x ensures InFree(t, x) <==> x in FreeUnits(s) - UnitsOf(Extent(a, size)) {
      assert Covers(Extent(a, size), x) <==> a <= x < a + size;
      assert InFree(t, x) <==> InFree(s, x) && !(a <= x < a + size);
    }
    UnitsEqual(t, FreeUnits(s) - UnitsOf(Extent(a, size)));
  }

  // Allocation finds the lowest place at which the set has that many units, if there is one.
  lemma AllocIndexIs(s: Extents, size: nat, a: nat)
    requires Canonical(s) && size > 0
    ensures Lowest(FreeUnits(s), a, size) <==> a == AllocIndex(s, size) != 0
  {
    AllocLowest(s, size);
    forall b ensures RunAt(FreeUnits(s), b, size) <==> FreeRun(s, b, size) {
      RunsAgree(s, b, size);
    }
    if Lowest(FreeUnits(s), a, size) {
      assert FreeRun(s, a, size);
    }
  }

  lemma AllocUnits(s: Extents, size: nat, slots: nat)
    requires Canonical(s) && size > 0
    ensures FreeUnits(if AllocIndex(s, size) == 0 then s else AllocRest(s, size)) ==
            StepUnits(FreeUnits(s), slots, AllocOp(size))
  {
    forall a: nat ensures Lowest(FreeUnits(s), a, size) <==> a == AllocIndex(s, size) != 0 {
      AllocIndexIs(s, size, a);
    }
    if AllocIndex(s, size) != 0 {
      assert Lowest(FreeUnits(s), AllocIndex(s, size), size);
      TakenUnits(s, size);
    }
  }

  // The set after a free: the same, or the freed units more.
  lemma AddedUnits(s: Extents, off: nat, size: nat, room: bool)
    requires Canonical(s) && Freeable(s, off, size)
    ensures FreeUnits(FreeInto(s, off, size, room).rest) ==
            FreeUnits(s) + if room || Adjacent(s, off, size) then UnitsOf(Extent(off, size)) else {}
  {
    var r := FreeInto(s, off, size, room);
    var kept := room || Adjacent(s, off, size);
    var f := if kept then UnitsOf(Extent(off, size)) else {};
    FreeAdds(s, off, size, room);
    FreeUnitsIs(s);
    forall x ensures InFree(r.rest, x) <==> x in FreeUnits(s) + f {
      assert Covers(Extent(off, size), x) <==> off <= x < off + size;
      assert x in f <==> kept && Covers(Extent(off, size), x);
      assert InFree(r.rest, x) <==> InFree(s, x) || (r.lost == 0 && off <= x < off + size);
    }
    UnitsEqual(r.rest, FreeUnits(s) + f);
  }

  lemma FreeOpUnits(st: State, off: nat, size: nat)
    requires StateOk(st) && Freeable(st.free, off, size)
    ensures FreeUnits(FreeInto(st.free, off, size, !Full(st)).rest) ==
            StepUnits(FreeUnits(st.free), st.slots, FreeOp(off, size))
  {
    AddedUnits(st.free, off, size, !Full(st));
    OnePerPiece(st.free);
    FreeUnitsIs(st.free);
  }

  // Whatever the run, the map holds exactly the units that the operations leave free: those
  // freed, without those allocated again and those lost.
  lemma {:induction false} RunKeepsUnits(st: State, ops: seq<Op>)
    requires StateOk(st) && Legal(st, ops)
    ensures FreeUnits(Run(st, ops).free) == RunUnits(FreeUnits(st.free), st.slots, ops)
    decreases |ops|
  {
    if ops != [] {
      assert Run(st, [ops[0]]) == Step(st, ops[0]);
      RunConserves(st, [ops[0]]);
      match ops[0] {
        case AllocOp(size) => AllocUnits(st.free, size, st.slots);
        case FreeOp(off, size) => FreeOpUnits(st, off, size);
      }
      RunKeepsUnits(Step(st, ops[0]), ops[1..]);
    }
  }

  // ---- How many elements the array needs ----

  // Units n, n + 2, n + 4 and so on, one at a time.
  function EveryOther(n: nat, count: nat): (r: Extents) {
    if count == 0 then [] else EveryOther(n, count - 1) + [Extent(n + 2 * (count - 1), 1)]
  }

  lemma {:induction false} EveryOtherIs(n: nat, count: nat)
    ensures |EveryOther(n, count)| == count
    ensures forall i | 0 <= i < count :: EveryOther(n, count)[i] == Extent(n + 2 * i, 1)
  {
    if count > 0 {
      EveryOtherIs(n, count - 1);
    }
  }

  lemma {:induction false} FreeBeyond(s: Extents, off: nat)
    requires forall i | 0 <= i < |s| :: End(s[i]) < off
    ensures FreeInto(s, off, 1, true) == Freed(s + [Extent(off, 1)], 0)
    decreases |s|
  {
    if s != [] {
      FreeBeyond(s[1..], off);
      assert [s[0]] + (s[1..] + [Extent(off, 1)]) == s + [Extent(off, 1)];
    }
  }

  // Freeing units that do not touch fills every one of the slots, so the array needs one
  // element more than rmap_init is told: the header is not among them.
  lemma {:induction false} SlotsFill(slots: nat, count: nat)
    requires count <= slots && 2 * count <= ULONG_RANGE
    ensures exists ops: seq<Op> :: Fills(slots, count, ops)
  {
    if count == 0 {
      assert Fills(slots, 0, []);
    } else {
      SlotsFill(slots, count - 1);
      var ops: seq<Op> :| Fills(slots, count - 1, ops);
      var s, off := EveryOther(1, count - 1), 1 + 2 * (count - 1);
      EveryOtherIs(1, count - 1);
      FreeBeyond(s, off);
      var st0, op := State([], slots, 0, 0), FreeOp(off, 1);
      var st := Run(st0, ops);
      assert Freeable(st.free, off, 1);
      assert [op][1..] == [] && Legal(st, [op]);
      assert Step(st, op) == State(EveryOther(1, count), slots, 0, 0 - count);
      RunAppend(st0, ops, op);
      assert Fills(slots, count, ops + [op]);
    }
  }

  // Operations that a map's users may ask for, and that leave that many extents.
  ghost predicate Fills(slots: nat, count: nat, ops: seq<Op>) {
    var st := State([], slots, 0, 0);
    Legal(st, ops) && Run(st, ops) == State(EveryOther(1, count), slots, 0, 0 - count)
  }

  lemma {:induction false} RunAppend(st: State, ops: seq<Op>, op: Op)
    ensures Run(st, ops + [op]) == Step(Run(st, ops), op)
    ensures Legal(st, ops) && Legal(Run(st, ops), [op]) ==> Legal(st, ops + [op])
    decreases |ops|
  {
    if ops == [] {
      assert ops + [op] == [op] && [op][1..] == [];
      assert Run(st, [op]) == Run(Step(st, op), []);
    } else {
      assert (ops + [op])[1..] == ops[1..] + [op];
      RunAppend(Step(st, ops[0]), ops[1..], op);
    }
  }

  // ---- The array ----

  // unsigned addition
  function Add(a: nat, b: nat): (r: nat) {
    (a + b) % ULONG_RANGE
  }

  // k extents have been passed over without effect.
  ghost predicate Passed(s: Extents, k: nat, off: nat, size: nat, room: bool)
    requires k <= |s|
  {
    var r := FreeInto(s[k..], off, size, room);
    FreeInto(s, off, size, room) == Freed(s[..k] + r.rest, r.lost)
  }

  lemma PassNone(s: Extents, off: nat, size: nat, room: bool)
    ensures Passed(s, 0, off, size, room)
  {
    assert s[0..] == s;
  }

  lemma PassOne(s: Extents, k: nat, off: nat, size: nat, room: bool)
    requires k < |s| && Passed(s, k, off, size, room)
    requires !Touches(s[k], off, size)
    ensures Passed(s, k + 1, off, size, room)
  {
    var t := s[k..];
    var r := FreeInto(t[1..], off, size, room);
    assert t[1..] == s[k + 1..];
    assert FreeInto(t, off, size, room) == Freed([t[0]] + r.rest, r.lost);
    assert s[..k] + ([s[k]] + r.rest) == s[..k + 1] + r.rest;
  }

  // The freed units end extent k.
  predicate Extends(s: Extents, k: nat, off: nat) {
    k < |s| && End(s[k]) == off
  }

  // They end extent k and lead up to the next one.
  predicate Bridges(s: Extents, k: nat, off: nat, size: nat) {
    Extends(s, k, off) && k + 1 < |s| && off + size == s[k + 1].off
  }

  // They lead up to extent k.
  predicate Precedes(s: Extents, k: nat, off: nat, size: nat) {
    k < |s| && !Extends(s, k, off) && off + size == s[k].off
  }

  // The units end e, lead up to it, or lie before it.
  predicate Touches(e: Extent, off: nat, size: nat) {
    End(e) == off || off + size == e.off || off < e.off
  }

  // Wrapping sums cannot make units touch an extent that they do not touch.
  lemma SumsAgree(e: Extent, off: nat, size: nat)
    requires ExtentOk(e) && 0 < off && 0 < size && off + size <= ULONG_RANGE
    ensures Add(e.off, e.size) == off <==> End(e) == off
    ensures Add(off, size) == e.off <==> off + size == e.off
  {
  }

  // What freeing does at extent k, the first that the freed units touch or lie before.
  function FreedAt(s: Extents, k: nat, off: nat, size: nat, room: bool): (r: Freed)
    requires k <= |s|
  {
    if Bridges(s, k, off, size) then
      Freed(s[..k] + [Extent(s[k].off, s[k].size + size + s[k + 1].size)] + s[k + 2..], 0)
    else if Extends(s, k, off) then Freed(s[k := Extent(s[k].off, s[k].size + size)], 0)
    else if Precedes(s, k, off, size) then Freed(s[k := Extent(off, s[k].size + size)], 0)
    else if room then Freed(s[..k] + [Extent(off, size)] + s[k..], 0)
    else Freed(s, size)
  }

  lemma FreedHere(s: Extents, k: nat, off: nat, size: nat, room: bool)
    requires k <= |s| && Passed(s, k, off, size, room)
    requires k < |s| ==> Touches(s[k], off, size)
    ensures FreeInto(s, off, size, room) == FreedAt(s, k, off, size, room)
  {
    var t := s[k..];
    FreedHead(t, off, size, room);
    var r := FreedAt(t, 0, off, size, room);
    assert k < |s| ==> t[0] == s[k];
    assert k + 1 < |s| ==> t[1] == s[k + 1];
    assert s[..k] + r.rest == FreedAt(s, k, off, size, room).rest;
  }

  lemma FreedHead(t: Extents, off: nat, size: nat, room: bool)
    requires t != [] ==> Touches(t[0], off, size)
    ensures FreeInto(t, off, size, room) == FreedAt(t, 0, off, size, room)
  {
    assert t[..0] == [] && t[0..] == t;
    assert t != [] ==> t == [t[0]] + t[1..];
  }

  class Rmap {
    const rmap: array<Extent>   // element 0 is the header: (extents, slots)
    var lostElems: nat
    ghost var held: int         // units allocated and not yet freed

    ghost function Entries(): (r: Extents)
      requires rmap.Length >= 1 && 1 + rmap[0].off <= rmap.Length
      reads rmap
    {
      rmap[1..1 + rmap[0].off]
    }

    // The fullness test compares the count of extents with the number of slots, so there
    // must be one element for each slot besides the header.
    ghost predicate Ok()
      reads this, rmap
    {
      rmap.Length >= 1 && rmap.Length >= 1 + rmap[0].size && rmap[0].off <= rmap[0].size && Canonical(Entries())
    }

    // Free units, allocated units and lost units together.
    ghost function Units(): (r: int)
      requires Ok()
      reads this, rmap
    {
      Total(Entries()) + held + lostElems
    }

    // rmap_init
    constructor (r: array<Extent>, size: nat)
      requires r.Length >= 1 + size
      modifies r
      ensures rmap == r && Ok() && Entries() == [] && rmap[0].size == size && Units() == 0
    {
      rmap := r;
      lostElems := 0;
      held := 0;
      new;
      r[0] := Extent(0, size);
    }

    // bcopy of the elements after r one place down
    method CloseUp(r: nat, rlim: nat)
      requires 1 <= r <= rlim < rmap.Length
      modifies rmap
      ensures forall i | 0 <= i < rmap.Length :: rmap[i] == old(if r <= i < rlim then rmap[i + 1] else rmap[i])
    {
      for k := r to rlim
        invariant forall i | 0 <= i < rmap.Length :: rmap[i] == old(if r <= i < k then rmap[i + 1] else rmap[i])
      {
        rmap[k] := rmap[k + 1];
      }
    }

    // bcopy of the elements from r one place up
    method OpenUp(r: nat, rlim: nat)
      requires 1 <= r <= rlim < rmap.Length - 1
      modifies rmap
      ensures forall i | 0 <= i < rmap.Length :: rmap[i] == old(if r < i <= rlim + 1 then rmap[i - 1] else rmap[i])
    {
      var k := rlim;
      while k >= r
        invariant r - 1 <= k <= rlim
        invariant forall i | 0 <= i < rmap.Length ::
                    rmap[i] == old(if k + 1 < i <= rlim + 1 then rmap[i - 1] else rmap[i])
        decreases k
      {
        rmap[k + 1] := rmap[k];
        k := k - 1;
      }
    }

    // The search of rmap_alloc.
    method FindFit(size: nat) returns (r: nat)
      requires Ok()
      ensures r == 1 + FirstFit(Entries(), size)
    {
      ghost var s := Entries();
      r := 1;
      while r <= rmap[0].off && rmap[r].size < size
        invariant 1 <= r <= rmap[0].off + 1
        invariant forall k | 0 <= k < r - 1 :: s[k].size < size
      {
        assert s[r - 1] == rmap[r];
        r := r + 1;
      }
      assert r <= rmap[0].off ==> s[r - 1] == rmap[r];
      FirstFitIs(s, size, r - 1);
    }

    // Element r and those after it make way for what follows; the count goes down.
    method Remove(r: nat)
      requires rmap.Length >= 1 && 1 <= r <= rmap[0].off < rmap.Length
      modifies rmap
      ensures rmap[0] == old(Extent(rmap[0].off - 1, rmap[0].size))
      ensures Entries() == old(Entries()[..r - 1] + Entries()[r..])
    {
      var rlim := rmap[0].off;
      rmap[0] := Extent(rmap[0].off - 1, rmap[0].size);
      if r < rlim {
        CloseUp(r, rlim);
      }
    }

    // rmap_alloc: 0 on failure
    method Alloc(size: nat) returns (idx: nat)
      requires Ok() && size > 0
      modifies this`held, rmap
      ensures Ok() && Units() == old(Units())
      ensures idx == AllocIndex(old(Entries()), size)
      ensures Entries() == AllocRest(old(Entries()), size) && rmap[0].size == old(rmap[0].size)
      ensures held == old(held) + if idx == 0 then 0 else size
    {
      ghost var s := Entries();
      var r := FindFit(size);
      if r > rmap[0].off {
        return 0;
      }
      assert rmap[r] == s[r - 1] && ExtentOk(s[r - 1]);
      idx := rmap[r].off;
      if rmap[r].size > size {
        rmap[r] := Extent(rmap[r].off + size, rmap[r].size - size);
        assert Entries() == s[r - 1 := rmap[r]];
      } else {
        Remove(r);
      }
      assert Entries() == AllocRest(s, size);
      AllocKeeps(s, size);
      held := held + size;
    }

    // An extent is put in at r, where there is a spare slot.
    method InsertAt(r: nat, e: Extent)
      requires rmap.Length >= 1 && 1 <= r <= rmap[0].off + 1 < rmap.Length
      modifies rmap
      ensures rmap[0] == old(Extent(rmap[0].off + 1, rmap[0].size))
      ensures Entries() == old(Entries()[..r - 1]) + [e] + old(Entries()[r - 1..])
    {
      var rlim := rmap[0].off;
      rmap[0] := Extent(rmap[0].off + 1, rmap[0].size);
      if r <= rlim {
        OpenUp(r, rlim);
        rmap[r] := e;
        return;
      }
      rmap[rlim + 1] := e;
    }

    // The loop of rmap_free: the first extent that the freed units touch or lie before.
    method FindPlace(off: nat, size: nat) returns (r: nat)
      requires Ok() && 0 < off && 0 < size && off + size <= ULONG_RANGE
      ensures 1 <= r <= rmap[0].off + 1
      ensures Passed(Entries(), r - 1, off, size, rmap[0].size != rmap[0].off)
      ensures r <= rmap[0].off ==> Touches(Entries()[r - 1], off, size)
    {
      ghost var s, room := Entries(), rmap[0].size != rmap[0].off;
      r := 1;
      PassNone(s, off, size, room);
      while r <= rmap[0].off
        invariant 1 <= r <= rmap[0].off + 1
        invariant Passed(s, r - 1, off, size, room)
      {
        assert s[r - 1] == rmap[r];
        assert ExtentOk(s[r - 1]);
        SumsAgree(s[r - 1], off, size);
        if Add(rmap[r].off, rmap[r].size) == off || Add(off, size) == rmap[r].off || off < rmap[r].off {
          return;
        }
        PassOne(s, r - 1, off, size, room);
        r := r + 1;
      }
    }

    // rmap_free
    method Free(off: nat, size: nat)
      requires Ok() && Freeable(Entries(), off, size)
      modifies this, rmap
      ensures Ok() && Units() == old(Units()) && held == old(held) - size
      ensures var r := FreeInto(old(Entries()), off, size, old(rmap[0].size != rmap[0].off));
              Entries() == r.rest && lostElems == old(lostElems) + r.lost && rmap[0].size == old(rmap[0].size)
    {
      ghost var s, room := Entries(), rmap[0].size != rmap[0].off;
      var r := FindPlace(off, size);
      Place(r, off, size);
      held := held - size;
      ghost var f := FreeInto(s, off, size, room);
      assert f.rest == Entries() by {
        FreedHere(s, r - 1, off, size, room);
      }
      assert f.lost == lostElems - old(lostElems) by {
        FreedHere(s, r - 1, off, size, room);
      }
      FreeAdds(s, off, size, room);
    }

    // The rest of rmap_free, at the place its loop found.
    method Place(r: nat, off: nat, size: nat)
      requires Ok() && 0 < off && 0 < size && off + size <= ULONG_RANGE && 1 <= r <= rmap[0].off + 1
      modifies this`lostElems, rmap
      ensures rmap[0].size == old(rmap[0].size) && rmap[0].off <= rmap[0].size
      ensures var r := FreedAt(old(Entries()), r - 1, off, size, old(rmap[0].size != rmap[0].off));
              Entries() == r.rest && lostElems == old(lostElems) + r.lost
    {
      ghost var s := Entries();
      var rlim := rmap[0].off;
      assert r <= rlim ==> s[r - 1] == rmap[r] && ExtentOk(s[r - 1]);
      if r <= rlim && Add(rmap[r].off, rmap[r].size) == off {
        assert r < rlim ==> s[r] == rmap[r + 1] && ExtentOk(s[r]);
        ExtendAt(r, off, size);
      } else if r <= rlim && Add(off, size) == rmap[r].off {
        rmap[r] := Extent(off, rmap[r].size + size);
        assert Entries() == s[r - 1 := rmap[r]];
      } else if rmap[0].size == rmap[0].off {
        lostElems := lostElems + size;
      } else {
        InsertAt(r, Extent(off, size));
      }
    }

    // The first case of rmap_free: extent r grows, and takes in the next one if it can.
    method ExtendAt(r: nat, off: nat, size: nat)
      requires 0 < rmap.Length && rmap[0].size < rmap.Length && 1 <= r <= rmap[0].off <= rmap[0].size
      requires End(rmap[r]) == off && off + size <= ULONG_RANGE
      requires r < rmap[0].off ==> ExtentOk(rmap[r + 1])
      modifies rmap
      ensures rmap[0].size == old(rmap[0].size) && rmap[0].off <= rmap[0].size
      ensures var s, k := old(Entries()), r - 1;
              Extends(s, k, off) && FreedAt(s, k, off, size, old(rmap[0].size != rmap[0].off)) == Freed(Entries(), 0)
    {
      ghost var s, k := Entries(), r - 1;
      assert s[k] == rmap[r];
      var rlim := rmap[0].off;
      rmap[r] := Extent(rmap[r].off, rmap[r].size + size);
      ghost var t := s[k := rmap[r]];
      assert Entries() == t;
      if r < rlim && Add(rmap[r].off, rmap[r].size) == rmap[r + 1].off {
        assert rmap[r + 1] == s[r];
        rmap[r] := Extent(rmap[r].off, rmap[r].size + rmap[r + 1].size);
        assert Entries() == t[k := rmap[r]];
        Remove(r + 1);
      } else {
        assert r < rlim ==> rmap[r + 1] == s[r];
      }
    }
  }

  lemma {:induction false} FirstFitIs(s: Extents, size: nat, i: nat)
    requires i <= |s| && (i < |s| ==> s[i].size >= size)
    requires forall j | 0 <= j < i :: s[j].size < size
    ensures FirstFit(s, size) == i
  {
  }
}
