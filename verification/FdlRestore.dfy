/** The new program's descriptor table (src/libc/fdl.c, __fdl_restore): the first record of each
  port number makes a port, the later ones share it and are marked as done in the area. */
module FdlRestore {
  import opened Words
  import opened ByteArea
  import opened Descriptors
  import opened FdlState

  // ---- What is restored ----

  predicate Back(recs: seq<Record>, view: View, i: nat)
    requires i < |recs|
  {
    recs[i].fd >= 0 && recs[i].fd in view && view[recs[i].fd].number == recs[i].number
  }

  predicate Shared(recs: seq<Record>, view: View, i: nat, j: nat)
    requires i < |recs| && j < |recs|
  {
    && recs[i].fd >= 0 && recs[j].fd >= 0 && recs[i].fd in view && recs[j].fd in view
    && (recs[i].number == recs[j].number ==> view[recs[i].fd] == view[recs[j].fd])
  }

  ghost predicate From(recs: seq<Record>, taken: set<nat>, fd: int) {
    exists i {:trigger Names(recs, i, fd)} :: i in taken && i < |recs| && Names(recs, i, fd)
  }

  // The descriptors are those of the records taken; two share a port when those name the same
  // number.
  ghost predicate Restored(recs: seq<Record>, taken: set<nat>, view: View) {
    && (forall i | i in taken :: i < |recs|)
    && (forall i {:trigger Back(recs, view, i)} | i in taken :: Back(recs, view, i))
    && (forall i, j {:trigger Shared(recs, view, i, j)} | i in taken && j in taken :: Shared(recs, view, i, j))
    && (forall fd {:trigger From(recs, taken, fd)} | fd in view :: From(recs, taken, fd))
  }

  function All(recs: seq<Record>): (s: set<nat>)
    ensures forall i: nat :: i in s <==> i < |recs|
  {
    if recs == [] then {} else All(recs[..|recs| - 1]) + {|recs| - 1}
  }

  predicate Savable(recs: seq<Record>) {
    DistinctFds(recs) && 4 + 12 * |recs| < ULONG_RANGE && forall i | 0 <= i < |recs| :: recs[i].fd >= 0
  }

  lemma NotYet(recs: seq<Record>, taken: set<nat>, view: View, j: nat)
    requires Restored(recs, taken, view) && Savable(recs) && j < |recs| && j !in taken
    ensures recs[j].fd !in view
  {
    if recs[j].fd in view {
      assert From(recs, taken, recs[j].fd);
      var i: nat :| i in taken && i < |recs| && Names(recs, i, recs[j].fd);
    }
  }

  lemma Take(recs: seq<Record>, taken: set<nat>, view: View, j: nat, p: Port)
    requires Restored(recs, taken, view) && Savable(recs) && j < |recs| && j !in taken && p.number == recs[j].number
    requires forall i | i in taken && recs[i].number == recs[j].number :: Back(recs, view, i) && view[recs[i].fd] == p
    ensures Restored(recs, taken + {j}, view[recs[j].fd := p])
  {
    var taken', view' := taken + {j}, view[recs[j].fd := p];
    assert forall i | i in taken :: Back(recs, view, i) && recs[i].fd != recs[j].fd;
    forall i | i in taken' ensures Back(recs, view', i) {
    }
    forall i, l | i in taken' && l in taken' ensures Shared(recs, view', i, l) {
      assert i in taken && l in taken ==> Shared(recs, view, i, l);
    }
    forall fd | fd in view' ensures From(recs, taken', fd) {
      if fd == recs[j].fd {
        assert Names(recs, j, fd);
      } else {
        assert From(recs, taken, fd);
        var i: nat :| i in taken && i < |recs| && Names(recs, i, fd);
        assert i in taken' && Names(recs, i, fd);
      }
    }
  }

  // ---- What it means ----

  // The new table has the descriptors of the old; two share a port exactly when their ports had
  // the same number.
  lemma SharingByNumber(view: View, recs: seq<Record>, view': View)
    requires Saves(view, recs) && Restored(recs, All(recs), view')
    ensures view'.Keys == view.Keys
    ensures forall fd | fd in view :: fd in view' && view'[fd].number == view[fd].number
    ensures forall f, g | f in view && g in view ::
              f in view' && g in view' && (view'[f] == view'[g] <==> view[f].number == view[g].number)
  {
    forall fd | fd in view ensures fd in view' && view'[fd].number == view[fd].number {
      var i := RecordFor(view, recs, view', fd);
    }
    forall fd | fd in view' ensures fd in view {
      assert From(recs, All(recs), fd);
      var i: nat :| i in All(recs) && i < |recs| && Names(recs, i, fd);
      assert Named(view, recs, i);
    }
    forall f, g | f in view && g in view
      ensures f in view' && g in view' && (view'[f] == view'[g] <==> view[f].number == view[g].number)
    {
      var i := RecordFor(view, recs, view', f);
      var j := RecordFor(view, recs, view', g);
      assert Shared(recs, view', i, j);
    }
  }

  lemma RecordFor(view: View, recs: seq<Record>, view': View, fd: nat) returns (i: nat)
    requires Saves(view, recs) && Restored(recs, All(recs), view') && fd in view
    ensures i < |recs| && i in All(recs) && recs[i].fd == fd && recs[i].number == view[fd].number
    ensures fd in view' && view'[fd].number == view[fd].number
  {
    assert Listed(recs, fd);
    i :| i < |recs| && Names(recs, i, fd);
    assert Named(view, recs, i) && Back(recs, view', i);
  }

  // No two ports have the same number.
  ghost predicate OneEach(view: View) {
    forall f, g | f in view && g in view && view[f].number == view[g].number :: view[f] == view[g]
  }

  // Sharing survives exactly when different ports have different numbers.
  lemma SharingKept(view: View, recs: seq<Record>, view': View)
    requires Saves(view, recs) && Restored(recs, All(recs), view')
    ensures view'.Keys == view.Keys
    ensures OneEach(view) <==> forall f, g | f in view && g in view :: view'[f] == view'[g] <==> view[f] == view[g]
    ensures OneEach(view) ==> forall f | f in view :: Fds(view', view'[f]) == Fds(view, view[f])
  {
    SharingByNumber(view, recs, view');
    if OneEach(view) {
      forall f | f in view ensures Fds(view', view'[f]) == Fds(view, view[f]) {
        forall g ensures g in Fds(view', view'[f]) <==> g in Fds(view, view[f]) {
        }
      }
    }
  }

  // ---- Positions ----

  // The position in the first record of a port number.
  function FirstPos(recs: seq<Record>, number: long): (pos: ulong) {
    if recs == [] then 0 else if recs[0].number == number then recs[0].pos else FirstPos(recs[1..], number)
  }

  lemma {:induction false} FirstPosIs(recs: seq<Record>, k: nat)
    requires k < |recs| && forall i | 0 <= i < k :: recs[i].number != recs[k].number
    ensures FirstPos(recs, recs[k].number) == recs[k].pos
  {
    if k > 0 {
      FirstPosIs(recs[1..], k - 1);
    }
  }

  // The position in the records is that of the old port, if no other has its number.
  lemma {:induction false} SavedPos(view: View, recs: seq<Record>, fd: nat)
    requires Saves(view, recs) && PosSaved(view, recs) && OneEach(view) && fd in view
    ensures FirstPos(recs, view[fd].number) == view[fd].pos
  {
    assert Listed(recs, fd);
    var i: nat :| i < |recs| && Names(recs, i, fd);
    assert Named(view, recs, i);
    var k := First(recs, i);
    assert Named(view, recs, k) && PosOf(view, recs, k);
    FirstPosIs(recs, k);
  }

  lemma {:induction false} First(recs: seq<Record>, i: nat) returns (k: nat)
    requires i < |recs|
    ensures k <= i && recs[k].number == recs[i].number
    ensures forall j | 0 <= j < k :: recs[j].number != recs[k].number
  {
    if j :| 0 <= j < i && recs[j].number == recs[i].number {
      k := First(recs, j);
    } else {
      k := i;
    }
  }

  // ---- The records in memory ----

  function Seen(recs: seq<Record>, taken: set<nat>, i: nat): (r: Record)
    requires i < |recs|
  {
    if i in taken then recs[i].(fd := -1) else recs[i]
  }

  predicate InArea(a: seq<byte>, base: nat, recs: seq<Record>, taken: set<nat>, i: nat)
    requires i < |recs|
  {
    Holds(a, base + 12 * i, RecordBytes(Seen(recs, taken, i)))
  }

  // From the k-th on, the records are there; those taken are marked.
  ghost predicate Remaining(a: seq<byte>, base: nat, recs: seq<Record>, taken: set<nat>, k: nat) {
    forall i {:trigger InArea(a, base, recs, taken, i)} | k <= i < |recs| :: InArea(a, base, recs, taken, i)
  }

  lemma {:induction false} RecordIn(a: seq<byte>, base: nat, recs: seq<Record>, i: nat)
    requires Holds(a, base, RecordsBytes(recs)) && i < |recs|
    ensures Holds(a, base + 12 * i, RecordBytes(recs[i]))
    decreases |recs|
  {
    var rest := recs[..|recs| - 1];
    HoldsParts(a, base, RecordsBytes(rest), RecordBytes(recs[|recs| - 1]));
    if i < |rest| {
      RecordIn(a, base, rest, i);
    }
  }

  lemma AllRemaining(a: seq<byte>, base: nat, recs: seq<Record>)
    requires Holds(a, base, RecordsBytes(recs))
    ensures Remaining(a, base, recs, {}, 0)
  {
    forall i | 0 <= i < |recs| ensures InArea(a, base, recs, {}, i) {
      RecordIn(a, base, recs, i);
    }
  }

  method ReadRecord(area: array<byte>, p: nat, ghost r: Record) returns (s: Record)
    requires Holds(area[..], p, RecordBytes(r))
    ensures s == r
  {
    ghost var fd, number, pos := LongBytes(ToWord(r.fd)), LongBytes(ToWord(r.number)), LongBytes(r.pos);
    HoldsParts(area[..], p, fd + number, pos);
    HoldsParts(area[..], p, fd, number);
    var v, w, x, q;
    v, q := GetWord(area, p, ToWord(r.fd));
    w, q := GetWord(area, q, ToWord(r.number));
    x, q := GetWord(area, q, r.pos);
    s := Record(FromWord(v), FromWord(w), x);
  }

  lemma Marked(a: seq<byte>, b: seq<byte>, base: nat, recs: seq<Record>, taken: set<nat>, k: nat, j: nat)
    requires Remaining(a, base, recs, taken, k) && k <= j < |recs| && j !in taken
    requires Wrote(a, b, base + 12 * j, LongBytes(ToWord(-1)))
    ensures Remaining(b, base, recs, taken + {j}, k)
  {
    forall i | k <= i < |recs| ensures InArea(b, base, recs, taken + {j}, i) {
      assert InArea(a, base, recs, taken, i);
      var q, w := base + 12 * i, base + 12 * j;
      if i < j {
        SliceBelow(a, b, q, q + 12, w);
      } else if i > j {
        SliceAbove(a, b, q, q + 12, w + 4);
      } else {
        MarkedOne(a, b, q, recs[j]);
      }
    }
  }

  lemma SliceBelow(a: seq<byte>, b: seq<byte>, lo: nat, hi: nat, n: nat)
    requires lo <= hi <= n && n <= |a| && n <= |b| && a[..n] == b[..n]
    ensures a[lo..hi] == b[lo..hi]
  {
    forall i | lo <= i < hi ensures a[i] == b[i] {
      assert a[..n][i] == b[..n][i];
    }
  }

  lemma SliceAbove(a: seq<byte>, b: seq<byte>, lo: nat, hi: nat, n: nat)
    requires n <= lo <= hi && hi <= |a| && hi <= |b| && a[n..] == b[n..]
    ensures a[lo..hi] == b[lo..hi]
  {
    forall i | lo <= i < hi ensures a[i] == b[i] {
      assert a[n..][i - n] == b[n..][i - n];
    }
  }

  lemma MarkedOne(a: seq<byte>, b: seq<byte>, q: nat, r: Record)
    requires Holds(a, q, RecordBytes(r)) && Wrote(a, b, q, LongBytes(ToWord(-1)))
    ensures Holds(b, q, RecordBytes(r.(fd := -1)))
  {
    var rest := LongBytes(ToWord(r.number)) + LongBytes(r.pos);
    assert RecordBytes(r) == LongBytes(ToWord(r.fd)) + rest;
    HoldsParts(a, q, LongBytes(ToWord(r.fd)), rest);
    SliceAbove(a, b, q + 4, q + 12, q + 4);
    assert b[q..q + 12] == b[q..q + 4] + b[q + 4..q + 12];
    assert RecordBytes(r.(fd := -1)) == LongBytes(ToWord(-1)) + rest;
  }

  // ---- Restoring ----

  // Each port is of the type its server answers, and starts at position zero unless that is
  // "null", when it keeps the saved one.
  ghost predicate Opened(view: View, recs: seq<Record>, nulls: set<long>)
    reads view.Values
  {
    forall p | p in view.Values ::
      p.isNull == (p.number in nulls) && p.pos == if p.isNull then FirstPos(recs, p.number) else 0
  }

  // Everything below k is taken, and with a record all of its number.
  ghost predicate Complete(recs: seq<Record>, taken: set<nat>, k: nat) {
    && k <= |recs|
    && (forall i | 0 <= i < k :: i in taken)
    && (forall i, j | i in taken && 0 <= j < |recs| && i < |recs| && recs[i].number == recs[j].number :: j in taken)
  }

  // The records of that number between k and j.
  ghost function Between(recs: seq<Record>, number: long, k: nat, j: nat): (s: set<nat>)
    requires j <= |recs|
  {
    set i: nat | k <= i < j && recs[i].number == number
  }

  lemma CompleteNext(recs: seq<Record>, taken: set<nat>, k: nat)
    requires Complete(recs, taken, k) && k < |recs|
    ensures k in taken ==> Complete(recs, taken, k + 1)
    ensures k !in taken ==> Complete(recs, taken + Between(recs, recs[k].number, k, |recs|), k + 1)
  {
  }

  // s2->s_fd = -1
  method Mark(area: array<byte>, ghost base: nat, ghost recs: seq<Record>, ghost taken: set<nat>, ghost k: nat,
              ghost j: nat, q: nat)
    requires Remaining(area[..], base, recs, taken, k) && k <= j < |recs| && j !in taken && q == base + 12 * j
    requires base + 12 * |recs| <= area.Length
    modifies area
    ensures Remaining(area[..], base, recs, taken + {j}, k)
    ensures area[base + 12 * |recs|..] == old(area[base + 12 * |recs|..])
  {
    ghost var before := area[..];
    var _ := PutWord(area, q, ToWord(-1));
    Marked(before, area[..], base, recs, taken, k, j);
    ghost var rest := base + 12 * |recs| - q - 4;
    assert area[base + 12 * |recs|..] == area[..][q + 4..][rest..] == before[q + 4..][rest..];
  }

  // Record k has this port, and so have all records of its number taken so far.
  ghost predicate Owner(recs: seq<Record>, taken: set<nat>, view: View, k: nat, port: Port) {
    && Restored(recs, taken, view) && k in taken && k < |recs|
    && port.number == recs[k].number && Back(recs, view, k) && view[recs[k].fd] == port
  }

  // setfd and the new reference for record j
  method Share(t: FdTable, port: Port, fd: nat, ghost recs: seq<Record>, ghost taken: set<nat>, ghost k: nat,
               ghost j: nat)
    requires t.Valid() && Owner(recs, taken, t.view, k, port) && Savable(recs)
    requires j < |recs| && j !in taken && recs[j].number == port.number && fd == recs[j].fd <= INT_MAX
    modifies t`fdhash, t`view, t`frame, t.fdmap, t.frame, port`refs
    ensures t.Valid() && fresh(t.frame - old(t.frame))
    ensures Owner(recs, taken + {j}, t.view, k, port) && t.view.Values == old(t.view.Values)
  {
    ghost var view := t.view;
    NotYet(recs, taken, view, j);
    SoFar(recs, taken, view, k, port);
    Take(recs, taken, view, j, port);
    MoreValues(view, fd, port);
    t.Attach(fd, port);
  }

  // Record k has its port, and so have those of its number between k and j.
  ghost predicate Sharing(recs: seq<Record>, taken0: set<nat>, taken: set<nat>, k: nat, j: nat, view: View, port: Port,
                          a: seq<byte>, base: nat)
  {
    && Savable(recs) && Complete(recs, taken0, k) && k < j <= |recs| && k !in taken0
    && taken == taken0 + Between(recs, recs[k].number, k, j)
    && Owner(recs, taken, view, k, port) && Remaining(a, base, recs, taken, k + 1)
  }

  // One of the later records.
  method ShareOne(t: FdTable, port: Port, area: array<byte>, ghost base: nat, ghost recs: seq<Record>,
                  ghost taken: set<nat>, ghost k: nat, ghost j: nat, s2: nat)
    returns (ghost taken': set<nat>)
    requires t.Valid() && Savable(recs) && area !in t.frame
    requires k < j < |recs| && s2 == base + 12 * j && base + 12 * |recs| <= area.Length
    requires Owner(recs, taken, t.view, k, port) && Remaining(area[..], base, recs, taken, k + 1)
    requires recs[j].number == port.number ==> j !in taken
    modifies t`fdhash, t`view, t`frame, t.fdmap, t.frame, port`refs, area
    ensures t.Valid() && fresh(t.frame - old(t.frame))
    ensures taken' == taken + if recs[j].number == port.number then {j} else {}
    ensures Owner(recs, taken', t.view, k, port) && Remaining(area[..], base, recs, taken', k + 1)
    ensures t.view.Values == old(t.view.Values)
    ensures area[base + 12 * |recs|..] == old(area[base + 12 * |recs|..])
  {
    assert InArea(area[..], base, recs, taken, j);
    var s := ReadRecord(area, s2, Seen(recs, taken, j));
    taken' := taken;
    if s.number == port.number {
      Share(t, port, s.fd, recs, taken, k, j);
      Mark(area, base, recs, taken, k + 1, j, s2);
      taken' := taken + {j};
    }
  }

  method ShareNext(t: FdTable, port: Port, area: array<byte>, ghost base: nat, ghost recs: seq<Record>,
                   ghost taken0: set<nat>, ghost taken: set<nat>, ghost k: nat, ghost j: nat, s2: nat, endp: nat)
    returns (ghost taken': set<nat>)
    requires t.Valid() && area !in t.frame && Sharing(recs, taken0, taken, k, j, t.view, port, area[..], base)
    requires j < |recs| && s2 == base + 12 * j && endp == base + 12 * |recs| <= area.Length
    modifies t`fdhash, t`view, t`frame, t.fdmap, t.frame, port`refs, area
    ensures t.Valid() && fresh(t.frame - old(t.frame))
    ensures Sharing(recs, taken0, taken', k, j + 1, t.view, port, area[..], base)
    ensures t.view.Values == old(t.view.Values) && area[endp..] == old(area[endp..])
  {
    BetweenNext(recs, taken0, k, j);
    taken' := ShareOne(t, port, area, base, recs, taken, k, j, s2);
  }

  // The scan for the other records of the number of record k: they share its port.
  method ShareRest(t: FdTable, port: Port, area: array<byte>, ghost base: nat, ghost recs: seq<Record>,
                   ghost taken0: set<nat>, ghost k: nat, q: nat, endp: nat)
    returns (ghost taken: set<nat>)
    requires t.Valid() && area !in t.frame && k < |recs|
    requires Sharing(recs, taken0, taken0 + {k}, k, k + 1, t.view, port, area[..], base)
    requires q == base + 12 * (k + 1) && endp == base + 12 * |recs| <= area.Length
    modifies t`fdhash, t`view, t`frame, t.fdmap, t.frame, port`refs, area
    ensures t.Valid() && fresh(t.frame - old(t.frame))
    ensures Sharing(recs, taken0, taken, k, |recs|, t.view, port, area[..], base)
    ensures t.view.Values == old(t.view.Values) && area[endp..] == old(area[endp..])
  {
    taken := taken0 + {k};
    ghost var j := k + 1;
    var s2 := q;
    while s2 < endp
      invariant k < j <= |recs| && s2 == base + 12 * j
      invariant t.Valid() && fresh(t.frame - old(t.frame))
      invariant Sharing(recs, taken0, taken, k, j, t.view, port, area[..], base)
      invariant t.view.Values == old(t.view.Values) && area[endp..] == old(area[endp..])
      decreases endp - s2
    {
      taken := ShareNext(t, port, area, base, recs, taken0, taken, k, j, s2, endp);
      s2 := s2 + 12;
      j := j + 1;
    }
  }

  lemma BetweenNext(recs: seq<Record>, taken0: set<nat>, k: nat, j: nat)
    requires Complete(recs, taken0, k) && k !in taken0 && k < j < |recs|
    ensures var number := recs[k].number;
            && Between(recs, number, k, j + 1) ==
               Between(recs, number, k, j) + (if recs[j].number == number then {j} else {})
            && (recs[j].number == number ==> j !in taken0 && j !in Between(recs, number, k, j))
  {
  }

  lemma SoFar(recs: seq<Record>, taken: set<nat>, view: View, k: nat, port: Port)
    requires Restored(recs, taken, view) && k in taken && recs[k].fd in view && view[recs[k].fd as nat] == port
    ensures forall i | i in taken && recs[i].number == recs[k].number :: Back(recs, view, i) && view[recs[i].fd] == port
  {
    forall i | i in taken && recs[i].number == recs[k].number ensures Back(recs, view, i) && view[recs[i].fd] == port {
      assert Back(recs, view, i) && Shared(recs, view, i, k);
    }
  }

  // The table and area after the records below k.
  ghost predicate Partway(recs: seq<Record>, taken: set<nat>, k: nat, view: View, a: seq<byte>, base: nat) {
    Complete(recs, taken, k) && Restored(recs, taken, view) && Remaining(a, base, recs, taken, k)
  }

  // A record not taken yet: a new port for it and the others of its number.
  method NewPort(t: FdTable, s: Record, area: array<byte>, ghost base: nat, ghost recs: seq<Record>,
                 ghost taken0: set<nat>, ghost k: nat, q: nat, endp: nat, nulls: set<long>)
    returns (ghost taken: set<nat>, port: Port)
    requires t.Valid() && Savable(recs) && area !in t.frame
    requires k < |recs| && s == recs[k] && q == base + 12 * (k + 1) && endp == base + 12 * |recs| <= area.Length
    requires Partway(recs, taken0, k, t.view, area[..], base) && k !in taken0
    modifies t`fdhash, t`view, t`frame, t.fdmap, t.frame, area
    ensures t.Valid() && fresh(t.frame - old(t.frame))
    ensures Partway(recs, taken, k + 1, t.view, area[..], base)
    ensures fresh(port) && t.view.Values == old(t.view.Values) + {port}
    ensures port.number == s.number && port.isNull == (s.number in nulls)
    ensures port.pos == if port.isNull then s.pos else 0
    ensures area[endp..] == old(area[endp..])
  {
    taken, port := SharePort(t, s, area, base, recs, taken0, k, q, endp, nulls);
    t.DoOpen(port);
  }

  method SharePort(t: FdTable, s: Record, area: array<byte>, ghost base: nat, ghost recs: seq<Record>,
                   ghost taken0: set<nat>, ghost k: nat, q: nat, endp: nat, nulls: set<long>)
    returns (ghost taken: set<nat>, port: Port)
    requires t.Valid() && Savable(recs) && area !in t.frame
    requires k < |recs| && s == recs[k] && q == base + 12 * (k + 1) && endp == base + 12 * |recs| <= area.Length
    requires Partway(recs, taken0, k, t.view, area[..], base) && k !in taken0
    modifies t`fdhash, t`view, t`frame, t.fdmap, t.frame, area
    ensures t.Valid() && fresh(t.frame - old(t.frame))
    ensures Partway(recs, taken, k + 1, t.view, area[..], base)
    ensures fresh(port) && t.view.Values == old(t.view.Values) + {port}
    ensures port.number == s.number && port.isNull == (s.number in nulls) && port.pos == s.pos
    ensures area[endp..] == old(area[endp..])
  {
    Skipped(area[..], base, recs, taken0, k);
    port := MakePort(t, s, recs, taken0, k, nulls);
    ghost var frame := t.frame;
    assert Sharing(recs, taken0, taken0 + {k}, k, k + 1, t.view, port, area[..], base) by {
      assert Between(recs, recs[k].number, k, k + 1) == {k};
    }
    taken := ShareRest(t, port, area, base, recs, taken0, k, q, endp);
    PartwayNext(recs, taken0, taken, k, t.view, area[..], base);
    assert fresh(t.frame - frame);
  }

  lemma PartwayNext(recs: seq<Record>, taken0: set<nat>, taken: set<nat>, k: nat, view: View, a: seq<byte>, base: nat)
    requires Complete(recs, taken0, k) && k < |recs| && k !in taken0
    requires taken == taken0 + Between(recs, recs[k].number, k, |recs|)
    requires Restored(recs, taken, view) && Remaining(a, base, recs, taken, k + 1)
    ensures Partway(recs, taken, k + 1, view, a, base)
  {
    CompleteNext(recs, taken0, k);
  }

  method MakePort(t: FdTable, s: Record, ghost recs: seq<Record>, ghost taken0: set<nat>, ghost k: nat,
                  nulls: set<long>)
    returns (port: Port)
    requires t.Valid() && Savable(recs) && k < |recs| && s == recs[k]
    requires Complete(recs, taken0, k) && Restored(recs, taken0, t.view) && k !in taken0
    modifies t`fdhash, t`view, t`frame, t.fdmap, t.frame
    ensures t.Valid() && fresh(t.frame - old(t.frame))
    ensures fresh(port) && port !in t.frame && port.isNull == (s.number in nulls) && port.pos == s.pos
    ensures Owner(recs, taken0 + {k}, t.view, k, port) && t.view.Values == old(t.view.Values) + {port}
  {
    ghost var view := t.view;
    port := new Port(s.number, s.pos, s.number in nulls);
    NotYet(recs, taken0, view, k);
    FirstOfNumber(recs, taken0, k, view, port);
    t.Install(s.fd, port);
    MoreValues(view, s.fd, port);
  }

  lemma MoreValues(view: View, fd: nat, p: Port)
    requires fd !in view
    ensures view[fd := p].Values == view.Values + {p}
  {
    var view' := view[fd := p];
    assert fd in view' && view'[fd] == p;
    forall q | q in view.Values ensures q in view'.Values {
      var f :| f in view && view[f] == q;
      assert f in view' && view'[f] == q;
    }
  }

  lemma Skipped(a: seq<byte>, base: nat, recs: seq<Record>, taken: set<nat>, k: nat)
    requires Remaining(a, base, recs, taken, k) && k < |recs|
    ensures Remaining(a, base, recs, taken, k + 1) && Remaining(a, base, recs, taken + {k}, k + 1)
  {
    forall i | k + 1 <= i < |recs| ensures InArea(a, base, recs, taken + {k}, i) {
      assert InArea(a, base, recs, taken, i);
    }
  }

  lemma FirstOfNumber(recs: seq<Record>, taken: set<nat>, k: nat, view: View, port: Port)
    requires Complete(recs, taken, k) && Restored(recs, taken, view) && Savable(recs)
    requires k < |recs| && k !in taken && port.number == recs[k].number
    ensures Owner(recs, taken + {k}, view[recs[k].fd := port], k, port)
  {
    Take(recs, taken, view, k, port);
  }

  // The record at q.
  method RestoreOne(t: FdTable, area: array<byte>, ghost base: nat, ghost recs: seq<Record>, ghost taken0: set<nat>,
                    ghost k: nat, q: nat, endp: nat, nulls: set<long>)
    returns (ghost taken: set<nat>, port: Port?)
    requires t.Valid() && Savable(recs) && area !in t.frame
    requires k < |recs| && q == base + 12 * k && endp == base + 12 * |recs| <= area.Length
    requires Partway(recs, taken0, k, t.view, area[..], base)
    modifies t`fdhash, t`view, t`frame, t.fdmap, t.frame, area
    ensures t.Valid() && fresh(t.frame - old(t.frame))
    ensures Partway(recs, taken, k + 1, t.view, area[..], base)
    ensures port == null ==> t.view.Values == old(t.view.Values)
    ensures port != null ==> fresh(port) && t.view.Values == old(t.view.Values) + {port}
    ensures port != null ==>
              && port.isNull == (port.number in nulls)
              && port.pos == if port.isNull then FirstPos(recs, port.number) else 0
    ensures area[endp..] == old(area[endp..])
  {
    assert InArea(area[..], base, recs, taken0, k);
    var s := ReadRecord(area, q, Seen(recs, taken0, k));
    if s.fd != -1 {
      FirstPosIs(recs, k);
      taken, port := NewPort(t, s, area, base, recs, taken0, k, q + 12, endp, nulls);
    } else {
      taken, port := taken0, null;
      CompleteNext(recs, taken, k);
      Skipped(area[..], base, recs, taken, k);
    }
  }

  // The same, for the positions of all ports so far.
  method RestoreNext(t: FdTable, area: array<byte>, ghost base: nat, ghost recs: seq<Record>, ghost taken0: set<nat>,
                     ghost k: nat, q: nat, endp: nat, nulls: set<long>)
    returns (ghost taken: set<nat>)
    requires t.Valid() && Opened(t.view, recs, nulls) && Savable(recs) && area !in t.frame
    requires k < |recs| && q == base + 12 * k && endp == base + 12 * |recs| <= area.Length
    requires Partway(recs, taken0, k, t.view, area[..], base)
    modifies t`fdhash, t`view, t`frame, t.fdmap, t.frame, area
    ensures t.Valid() && Opened(t.view, recs, nulls) && fresh(t.frame - old(t.frame))
    ensures Partway(recs, taken, k + 1, t.view, area[..], base)
    ensures area[endp..] == old(area[endp..])
  {
    var port: Port?;
    taken, port := RestoreOne(t, area, base, recs, taken0, k, q, endp, nulls);
  }

  // __fdl_restore, for the empty table of a new program; nulls are the ports whose servers answer
  // that their type is "null"
  method RestoreTable(t: FdTable, area: array<byte>, p: nat, ghost recs: seq<Record>, nulls: set<long>)
    returns (p': nat)
    requires t.Valid() && t.view == map[] && area !in t.frame
    requires Savable(recs) && Holds(area[..], p, FdlBytes(recs))
    modifies t`fdhash, t`view, t`frame, t.fdmap, t.frame, area
    ensures t.Valid() && Restored(recs, All(recs), t.view) && Opened(t.view, recs, nulls)
    ensures p' == p + |FdlBytes(recs)| && area[p'..] == old(area[p'..])
  {
    HoldsParts(area[..], p, LongBytes(4 + 12 * |recs|), RecordsBytes(recs));
    var len, q := GetWord(area, p, 4 + 12 * |recs|);
    var endp := p + len;
    ghost var base, k, taken := q, 0, {};
    AllRemaining(area[..], base, recs);
    while q < endp
      invariant k <= |recs| && q == base + 12 * k
      invariant t.Valid() && fresh(t.frame - old(t.frame)) && Opened(t.view, recs, nulls)
      invariant Partway(recs, taken, k, t.view, area[..], base)
      invariant area[endp..] == old(area[endp..])
      decreases endp - q
    {
      taken := RestoreNext(t, area, base, recs, taken, k, q, endp, nulls);
      q := q + 12;
      k := k + 1;
    }
    assert taken == All(recs);
    p' := q;
  }
}
