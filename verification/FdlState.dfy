/** The descriptor table in the exec handoff (src/libc/fdl.c, __fdl_size, __fdl_save and
  __fdl_restore): one record a descriptor, holding the number of its port.  Descriptors
  whose records name the same number share a port afterwards. */
module FdlState {
  import opened Options
  import opened Words
  import opened ByteArea
  import opened Descriptors
  import Sets
  import H = Hash

  datatype Record = Record(fd: long, number: long, pos: ulong)

  function RecordBytes(r: Record): (s: seq<byte>)
    ensures |s| == 12
  {
    LongBytes(ToWord(r.fd)) + LongBytes(ToWord(r.number)) + LongBytes(r.pos)
  }

  function RecordsBytes(recs: seq<Record>): (s: seq<byte>)
    ensures |s| == 12 * |recs|
  {
    if recs == [] then [] else RecordsBytes(recs[..|recs| - 1]) + RecordBytes(recs[|recs| - 1])
  }

  function FdlBytes(recs: seq<Record>): (s: seq<byte>)
    requires 4 + 12 * |recs| < ULONG_RANGE
    ensures |s| == 4 + 12 * |recs|
  {
    LongBytes(4 + 12 * |recs|) + RecordsBytes(recs)
  }

  // The first word is the size of it all, and record i has the descriptor, the port's number and the
  // position in the words at 4 + 12 * i.
  lemma {:induction false} RecordLayout(recs: seq<Record>, i: nat)
    requires i < |recs| && 4 + 12 * |recs| < ULONG_RANGE
    ensures FdlBytes(recs)[..4] == LongBytes(|FdlBytes(recs)|)
    ensures var at := FdlBytes(recs)[4 + 12 * i..4 + 12 * i + 12];
            && at[0..4] == LongBytes(ToWord(recs[i].fd)) && at[4..8] == LongBytes(ToWord(recs[i].number))
            && at[8..12] == LongBytes(recs[i].pos)
  {
    RecordAt(recs, i);
    assert FdlBytes(recs)[4..] == RecordsBytes(recs);
    assert FdlBytes(recs)[4 + 12 * i..4 + 12 * i + 12] == FdlBytes(recs)[4..][12 * i..12 * i + 12];
  }

  lemma {:induction false} RecordAt(recs: seq<Record>, i: nat)
    requires i < |recs|
    ensures RecordsBytes(recs)[12 * i..12 * i + 12] == RecordBytes(recs[i])
    decreases |recs|
  {
    var rest := RecordsBytes(recs[..|recs| - 1]);
    assert RecordsBytes(recs)[..|rest|] == rest;
    if i < |recs| - 1 {
      RecordAt(recs[..|recs| - 1], i);
      assert RecordsBytes(recs)[12 * i..12 * i + 12] == rest[12 * i..12 * i + 12];
    } else {
      assert RecordsBytes(recs)[12 * i..12 * i + 12] == RecordsBytes(recs)[|rest|..];
    }
  }

  // ---- What is saved ----

  predicate Names(recs: seq<Record>, i: nat, fd: int)
    requires i < |recs|
  {
    recs[i].fd == fd
  }

  predicate DistinctFds(recs: seq<Record>) {
    forall i, j | 0 <= i < j < |recs| :: recs[i].fd != recs[j].fd
  }

  ghost predicate Listed(recs: seq<Record>, fd: int) {
    exists i {:trigger Names(recs, i, fd)} :: 0 <= i < |recs| && Names(recs, i, fd)
  }

  // One record for each descriptor, with the number of its port.
  ghost predicate Saves(view: View, recs: seq<Record>) {
    && DistinctFds(recs) && |recs| == |view|
    && (forall i {:trigger Named(view, recs, i)} | 0 <= i < |recs| :: Named(view, recs, i))
    && (forall fd {:trigger Listed(recs, fd)} | fd in view :: Listed(recs, fd))
  }

  ghost predicate Named(view: View, recs: seq<Record>, i: nat)
    requires i < |recs|
  {
    recs[i].fd >= 0 && recs[i].fd in view && view[recs[i].fd].number == recs[i].number
  }

  lemma SavesAdd(view: View, recs: seq<Record>, fd: nat, p: Port, r: Record)
    requires Saves(view, recs) && fd !in view && r.fd == fd && r.number == p.number
    ensures Saves(view[fd := p], recs + [r])
  {
    var view', recs' := view[fd := p], recs + [r];
    assert view'.Keys == view.Keys + {fd};
    forall i | 0 <= i < |recs'| ensures Named(view', recs', i) && (i < |recs| ==> recs'[i].fd != fd) {
      assert i < |recs| ==> Named(view, recs, i);
    }
    forall g | g in view' ensures Listed(recs', g) {
      if g == fd {
        assert Names(recs', |recs|, g);
      } else {
        assert Listed(recs, g);
        var i: nat :| i < |recs| && Names(recs, i, g);
        assert Names(recs', i, g);
      }
    }
  }

  function LowView(view: View, x: nat): (r: View) {
    map fd | fd in view && fd < x :: view[fd]
  }

  // low and the pairs es.
  function Joined(low: View, es: H.Pairs<Port>): (r: View) {
    if es == [] then low else Joined(low, es[..|es| - 1])[es[|es| - 1].0 := es[|es| - 1].1]
  }

  lemma LowNext(view: View, x: nat)
    ensures LowView(view, x + 1) == if x in view then LowView(view, x)[x := view[x]] else LowView(view, x)
    ensures x !in LowView(view, x)
    ensures |LowView(view, x + 1)| == |LowView(view, x)| + if x in view then 1 else 0
  {
    assert LowView(view, x + 1) == if x in view then LowView(view, x)[x := view[x]] else LowView(view, x);
    assert x in view ==> LowView(view, x + 1).Keys == LowView(view, x).Keys + {x};
  }

  lemma {:induction false} JoinedIs(low: View, es: H.Pairs<Port>)
    requires H.UniqueKeys(es) && forall e | e in es :: e.0 !in low
    ensures |Joined(low, es)| == |low| + |es|
    ensures forall fd | fd in low :: fd in Joined(low, es) && Joined(low, es)[fd] == low[fd]
    ensures forall fd | fd in Joined(low, es) :: fd in low || (fd, Joined(low, es)[fd]) in es
    ensures forall e | e in es :: e.0 in Joined(low, es) && Joined(low, es)[e.0] == e.1
  {
    if es != [] {
      var rest, last := es[..|es| - 1], es[|es| - 1];
      JoinedIs(low, rest);
      assert last.0 !in Joined(low, rest) by {
        assert last in es && forall e | e in rest :: e.0 != last.0;
      }
      assert Joined(low, es).Keys == Joined(low, rest).Keys + {last.0};
    }
  }

  // With unique keys, what is found is what is there.
  lemma {:induction false} FindIn(l: H.Pairs<Port>, e: (nat, Port))
    requires H.UniqueKeys(l)
    ensures e in l <==> H.Find(l, e.0) == Some(e.1)
  {
    if l != [] {
      FindIn(l[1..], e);
      assert l == [l[0]] + l[1..];
      assert e in l[1..] ==> l[0].0 != e.0;
    }
  }

  lemma {:induction false} FlattenFrom(lists: Lists, b: nat)
    requires ListsOk(lists) && b <= NFD
    ensures H.UniqueKeys(H.Flatten(lists[b..]))
    ensures forall e | e in H.Flatten(lists[b..]) ::
              e.0 >= NFD && H.HashIdx(e.0, NFD) >= b && e in lists[H.HashIdx(e.0, NFD)]
    ensures forall e: (nat, Port) | H.HashIdx(e.0, NFD) >= b && e in lists[H.HashIdx(e.0, NFD)] ::
              e in H.Flatten(lists[b..])
    decreases NFD - b
  {
    if b < NFD {
      FlattenFrom(lists, b + 1);
      assert lists[b..][1..] == lists[b + 1..];
      var l, rest := lists[b], H.Flatten(lists[b + 1..]);
      assert ChainOk(l, b);
      assert H.Flatten(lists[b..]) == l + rest;
      forall i, j | 0 <= i < |l| && 0 <= j < |rest| ensures l[i].0 != rest[j].0 {
        assert rest[j] in rest;
      }
    }
  }

  ghost predicate IsHigh(view: View, k: nat, p: Port) {
    k >= NFD && k in view && view[k] == p
  }

  lemma InEntries(t: FdTable, k: nat, p: Port)
    requires t.ViewOk() && t.fdhash != null
    ensures (k, p) in H.Flatten(t.fdhash.lists) <==> IsHigh(t.view, k, p)
  {
    var lists := t.fdhash.lists;
    FlattenFrom(lists, 0);
    assert lists[0..] == lists;
    var b := H.HashIdx(k, NFD);
    assert ChainOk(lists[b], b);
    FindIn(lists[b], (k, p));
    assert t.High(k) == H.Find(lists[b], k);
    if (k, p) in H.Flatten(lists) {
      assert k >= NFD;
    }
  }

  lemma LowAndHigh(view: View, es: H.Pairs<Port>)
    requires H.UniqueKeys(es)
    requires forall k: nat, p: Port {:trigger (k, p) in es} :: (k, p) in es <==> IsHigh(view, k, p)
    ensures forall e | e in es :: IsHigh(view, e.0, e.1)
    ensures view == Joined(LowView(view, NFD), es)
    ensures |view| == |LowView(view, NFD)| + |es|
  {
    var low := LowView(view, NFD);
    forall e | e in es ensures IsHigh(view, e.0, e.1) {
      assert (e.0, e.1) in es;
    }
    JoinedIs(low, es);
    var all := Joined(low, es);
    forall k | k in view ensures k in all && all[k] == view[k] {
      assert k >= NFD ==> IsHigh(view, k, view[k]) && (k, view[k]) in es;
    }
    forall k | k in all ensures k in view {
      assert k in low || (k, all[k]) in es;
    }
  }

  // The hash holds the high descriptors, each once.
  lemma HighEntries(t: FdTable)
    requires t.ViewOk() && t.fdhash != null
    ensures var es := H.Flatten(t.fdhash.lists);
            && H.UniqueKeys(es)
            && (forall e | e in es :: IsHigh(t.view, e.0, e.1))
            && t.view == Joined(LowView(t.view, NFD), es)
            && |t.view| == |LowView(t.view, NFD)| + |es|
  {
    var lists := t.fdhash.lists;
    FlattenFrom(lists, 0);
    assert lists[0..] == lists;
    forall k: nat, p: Port ensures (k, p) in H.Flatten(lists) <==> IsHigh(t.view, k, p) {
      InEntries(t, k, p);
    }
    LowAndHigh(t.view, H.Flatten(lists));
  }

  // ---- Saving ----

  // __fdl_size
  method FdlSize(t: FdTable) returns (plen: nat)
    requires t.ViewOk()
    ensures plen == 4 + 12 * |t.view|
  {
    plen := 4;
    for x := 0 to NFD
      invariant plen == 4 + 12 * |LowView(t.view, x)|
    {
      LowNext(t.view, x);
      if t.fdmap[x] != null {
        plen := plen + 12;
      }
    }
    if t.fdhash != null {
      HighEntries(t);
      var n := t.fdhash.Size();
      plen := plen + n * 12;
    } else {
      NoHigh(t);
    }
  }

  lemma NoHigh(t: FdTable)
    requires t.ViewOk() && t.fdhash == null
    ensures t.view == LowView(t.view, NFD)
  {
    forall fd | fd in t.view ensures fd < NFD {
      assert t.High(fd) == None;
    }
  }

  // The records and their bytes so far.
  ghost predicate Saving(was: seq<byte>, a: seq<byte>, p: nat, len: ulong, part: View, recs: seq<Record>) {
    Saves(part, recs) && Wrote(was, a, p, LongBytes(len) + RecordsBytes(recs))
  }

  // One record at p.
  method PutRecord(area: array<byte>, p: nat, r: Record) returns (p': nat)
    requires p + 12 <= area.Length
    modifies area
    ensures p' == p + 12 && Wrote(old(area[..]), area[..], p, RecordBytes(r))
  {
    ghost var a0 := area[..];
    p' := PutWord(area, p, ToWord(r.fd));
    ghost var a1 := area[..];
    p' := PutWord(area, p', ToWord(r.number));
    ghost var a2 := area[..];
    WroteBoth(a0, a1, a2, p, LongBytes(ToWord(r.fd)), LongBytes(ToWord(r.number)));
    p' := PutWord(area, p', r.pos);
    WroteBoth(a0, a2, area[..], p, LongBytes(ToWord(r.fd)) + LongBytes(ToWord(r.number)), LongBytes(r.pos));
  }

  // The bytes of one record more.
  lemma RecordsNext(head: seq<byte>, recs: seq<Record>, r: Record)
    ensures head + RecordsBytes(recs + [r]) == head + RecordsBytes(recs) + RecordBytes(r)
  {
    assert (recs + [r])[..|recs|] == recs;
    Reassociate(head, RecordsBytes(recs), RecordBytes(r));
  }

  // addfdl, and the same for a slot of the array
  method AddFdl(fd: nat, port: Port, area: array<byte>, p: nat, ghost was: seq<byte>, ghost base: nat, ghost len: ulong,
                ghost part: View, ghost recs: seq<Record>)
    returns (p': nat, ghost recs': seq<Record>)
    requires fd <= INT_MAX && fd !in part && Saving(was, area[..], base, len, part, recs)
    requires p == base + 4 + 12 * |part| && p + 12 <= area.Length
    modifies area
    ensures p' == p + 12 && recs' == recs + [Record(fd, port.number, port.pos)]
    ensures Saving(was, area[..], base, len, part[fd := port], recs')
  {
    var r := Record(fd, port.number, port.pos);
    ghost var before := area[..];
    p' := PutRecord(area, p, r);
    recs' := recs + [r];
    WroteBoth(was, before, area[..], base, LongBytes(len) + RecordsBytes(recs), RecordBytes(r));
    RecordsNext(LongBytes(len), recs, r);
    SavesAdd(part, recs, fd, port, r);
  }

  // The records tell the positions of the ports, too.
  ghost predicate PosSaved(view: View, recs: seq<Record>)
    reads view.Values
  {
    forall i {:trigger PosOf(view, recs, i)} | 0 <= i < |recs| :: PosOf(view, recs, i)
  }

  ghost predicate PosOf(view: View, recs: seq<Record>, i: nat)
    requires i < |recs|
    reads view.Values
  {
    recs[i].fd >= 0 && recs[i].fd in view ==> recs[i].pos == view[recs[i].fd].pos
  }

  lemma PosNext(view: View, recs: seq<Record>, r: Record)
    requires PosSaved(view, recs) && r.fd >= 0 && (r.fd in view ==> r.pos == view[r.fd].pos)
    ensures PosSaved(view, recs + [r])
  {
    forall i | 0 <= i < |recs + [r]| ensures PosOf(view, recs + [r], i) {
      assert i < |recs| ==> PosOf(view, recs, i);
    }
  }

  // __fdl_save
  method FdlSave(t: FdTable, area: array<byte>, p: nat, len: ulong) returns (ghost recs: seq<Record>)
    requires t.ViewOk() && len == 4 + 12 * |t.view| && p + len <= area.Length
    requires area !in t.frame
    modifies area
    ensures Saves(t.view, recs) && PosSaved(t.view, recs)
    ensures Wrote(old(area[..]), area[..], p, FdlBytes(recs))
  {
    ghost var was := area[..];
    var p' := StartSave(area, p, len);
    p', recs := SaveLow(t.fdmap, t.view, area, p', was, p, len);
    recs := SaveHigh(t, area, p', was, p, len, recs);
    SavedAll(was, area[..], p, len, t.view, recs);
  }

  method StartSave(area: array<byte>, p: nat, len: ulong) returns (p': nat)
    requires p + 4 <= area.Length
    modifies area
    ensures p' == p + 4 && Saving(old(area[..]), area[..], p, len, map[], [])
  {
    p' := PutWord(area, p, len);
    assert LongBytes(len) + RecordsBytes([]) == LongBytes(len);
  }

  lemma SavedAll(was: seq<byte>, a: seq<byte>, p: nat, len: ulong, view: View, recs: seq<Record>)
    requires Saving(was, a, p, len, view, recs) && len == 4 + 12 * |view|
    ensures Saves(view, recs) && |recs| == |view| && Wrote(was, a, p, FdlBytes(recs))
  {
  }

  lemma LowFits(view: View, x: nat)
    requires x in view
    ensures |LowView(view, x)| < |view|
  {
    assert LowView(view, x).Keys + {x} <= view.Keys;
    Sets.Fewer(LowView(view, x).Keys + {x}, view.Keys);
  }

  // The walk over the array.
  method SaveLow(fdmap: array<Port?>, ghost view: View, area: array<byte>, p: nat,
                 ghost was: seq<byte>, ghost base: nat, ghost len: ulong)
    returns (p': nat, ghost recs: seq<Record>)
    requires fdmap.Length == NFD && forall fd | 0 <= fd < NFD :: fdmap[fd] == if fd in view then view[fd] else null
    requires len == 4 + 12 * |view| && base + len <= area.Length
    requires p == base + 4 && Saving(was, area[..], base, len, map[], [])
    modifies area
    ensures p' == base + 4 + 12 * |LowView(view, NFD)|
    ensures Saving(was, area[..], base, len, LowView(view, NFD), recs) && PosSaved(view, recs)
  {
    p', recs := p, [];
    assert LowView(view, 0) == map[];
    for x := 0 to NFD
      invariant p' == base + 4 + 12 * |LowView(view, x)|
      invariant Saving(was, area[..], base, len, LowView(view, x), recs) && PosSaved(view, recs)
    {
      LowNext(view, x);
      var port := fdmap[x];
      if port != null {
        LowFits(view, x);
        PosNext(view, recs, Record(x, port.number, port.pos));
        p', recs := AddFdl(x, port, area, p', was, base, len, LowView(view, x), recs);
      }
    }
  }

  // The walk over the hash.
  method SaveHigh(t: FdTable, area: array<byte>, p: nat, ghost was: seq<byte>, ghost base: nat, ghost len: ulong,
                  ghost recs0: seq<Record>)
    returns (ghost recs: seq<Record>)
    requires t.ViewOk() && len == 4 + 12 * |t.view| && base + len <= area.Length && area !in t.frame
    requires p == base + 4 + 12 * |LowView(t.view, NFD)|
    requires Saving(was, area[..], base, len, LowView(t.view, NFD), recs0) && PosSaved(t.view, recs0)
    modifies area
    ensures Saving(was, area[..], base, len, t.view, recs) && PosSaved(t.view, recs)
  {
    recs := recs0;
    if t.fdhash == null {
      NoHigh(t);
      return;
    }
    var entries := t.fdhash.Entries();
    HighEntries(t);
    recs := SaveEntries(entries, t.view, area, p, was, base, len, recs);
    assert entries[..|entries|] == entries;
  }

  method SaveEntries(entries: H.Pairs<Port>, ghost view: View, area: array<byte>, p: nat,
                     ghost was: seq<byte>, ghost base: nat, ghost len: ulong, ghost recs0: seq<Record>)
    returns (ghost recs: seq<Record>)
    requires H.UniqueKeys(entries) && forall e | e in entries :: IsHigh(view, e.0, e.1) && e.0 <= INT_MAX
    requires p == base + 4 + 12 * |LowView(view, NFD)| && p + 12 * |entries| <= area.Length
    requires Saving(was, area[..], base, len, LowView(view, NFD), recs0) && PosSaved(view, recs0)
    modifies area
    ensures Saving(was, area[..], base, len, Joined(LowView(view, NFD), entries[..|entries|]), recs)
    ensures PosSaved(view, recs)
  {
    ghost var low := LowView(view, NFD);
    var p' := p;
    recs := recs0;
    for k := 0 to |entries|
      invariant p' == base + 4 + 12 * (|low| + k)
      invariant Saving(was, area[..], base, len, Joined(low, entries[..k]), recs) && PosSaved(view, recs)
    {
      NextEntry(view, entries, k);
      var fd, port := entries[k].0, entries[k].1;
      PosNext(view, recs, Record(fd, port.number, port.pos));
      p', recs := AddFdl(fd, port, area, p', was, base, len, Joined(low, entries[..k]), recs);
    }
  }

  lemma NextEntry(view: View, es: H.Pairs<Port>, k: nat)
    requires k < |es| && H.UniqueKeys(es) && forall e | e in es :: IsHigh(view, e.0, e.1)
    ensures var part := Joined(LowView(view, NFD), es[..k]);
            && es[k].0 in view && view[es[k].0] == es[k].1 && es[k].0 !in part
            && |part| == |LowView(view, NFD)| + k
            && Joined(LowView(view, NFD), es[..k + 1]) == part[es[k].0 := es[k].1]
  {
    JoinedIs(LowView(view, NFD), es[..k]);
    assert es[k] in es && es[..k + 1][..k] == es[..k];
  }
}
