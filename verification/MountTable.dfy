/** The mount table (src/libc/mount.c): mounting, and how the table is saved for a new program
  and restored by it. */
module MountTable {
  import opened Words
  import opened ByteArea

  // A mount point and the ports mounted there, latest first.
  datatype Slot = Slot(name: seq<byte>, entries: seq<long>)

  // Machine-sized, and with names that are strings.
  predicate Storable(slots: seq<Slot>) {
    |slots| < ULONG_RANGE && forall x | x in slots :: CString(x.name) && |x.entries| < ULONG_RANGE
  }

  predicate UniqueNames(slots: seq<Slot>) {
    forall i, j | 0 <= i < j < |slots| :: slots[i].name != slots[j].name
  }

  // The ports to try at a mount point, in order.
  function Mounted(slots: seq<Slot>, name: seq<byte>): (r: seq<long>) {
    if slots == [] then []
    else if slots[0].name == name then slots[0].entries
    else Mounted(slots[1..], name)
  }

  lemma {:induction false} MountedAt(slots: seq<Slot>, x: nat)
    requires x < |slots| && forall i | 0 <= i < x :: slots[i].name != slots[x].name
    ensures Mounted(slots, slots[x].name) == slots[x].entries
  {
    if x > 0 {
      MountedAt(slots[1..], x - 1);
    }
  }

  lemma {:induction false} NotMounted(slots: seq<Slot>, name: seq<byte>)
    requires forall x | x in slots :: x.name != name
    ensures Mounted(slots, name) == []
  {
    if slots != [] {
      NotMounted(slots[1..], name);
    }
  }

  lemma {:induction false} MountedElsewhere(slots: seq<Slot>, x: nat, entries: seq<long>, name: seq<byte>)
    requires x < |slots| && name != slots[x].name
    ensures Mounted(slots[x := Slot(slots[x].name, entries)], name) == Mounted(slots, name)
  {
    var slots' := slots[x := Slot(slots[x].name, entries)];
    if x == 0 {
      assert slots'[1..] == slots[1..];
    } else {
      assert slots'[1..] == slots[1..][x - 1 := Slot(slots[x].name, entries)];
      MountedElsewhere(slots[1..], x - 1, entries, name);
    }
  }

  lemma {:induction false} MountedAppend(slots: seq<Slot>, last: Slot, name: seq<byte>)
    requires forall x | x in slots :: x.name != last.name
    ensures Mounted(slots + [last], name) == if name == last.name then last.entries else Mounted(slots, name)
  {
    if slots == [] {
      assert [last][1..] == [];
    } else {
      assert slots[0] in slots && (slots + [last])[1..] == slots[1..] + [last];
      MountedAppend(slots[1..], last, name);
    }
  }

  // ---- The bytes of a table ----

  function EntryBytes(ports: seq<long>): (s: seq<byte>)
    ensures |s| == 4 * |ports|
  {
    if ports == [] then [] else EntryBytes(ports[..|ports| - 1]) + LongBytes(ToWord(ports[|ports| - 1]))
  }

  function SlotBytes(x: Slot): (s: seq<byte>)
    requires |x.entries| < ULONG_RANGE
    ensures |s| == |x.name| + 1 + 4 + 4 * |x.entries|
  {
    StringBytes(x.name) + LongBytes(|x.entries|) + EntryBytes(x.entries)
  }

  function SlotsBytes(slots: seq<Slot>): (r: seq<byte>)
    requires forall x | x in slots :: |x.entries| < ULONG_RANGE
  {
    if slots == [] then [] else SlotsBytes(slots[..|slots| - 1]) + SlotBytes(slots[|slots| - 1])
  }

  function MountBytes(slots: seq<Slot>): (r: seq<byte>)
    requires Storable(slots)
  {
    LongBytes(|slots|) + SlotsBytes(slots)
  }

  // The bytes of a table up to slot x.
  function BytesUpTo(slots: seq<Slot>, x: nat): (r: seq<byte>)
    requires Storable(slots) && x <= |slots|
  {
    LongBytes(|slots|) + SlotsBytes(slots[..x])
  }

  // A slot is its name and a zero byte, the number of its ports, and the ports, one word each.
  lemma SlotLayout(x: Slot, y: nat)
    requires y < |x.entries| < ULONG_RANGE
    ensures var s, n := SlotBytes(x), |x.name|;
            && s[..n] == x.name && s[n] == 0 && s[n + 1..n + 5] == LongBytes(|x.entries|)
            && s[n + 5 + 4 * y..n + 9 + 4 * y] == LongBytes(ToWord(x.entries[y]))
  {
    var s, n := SlotBytes(x), |x.name|;
    EntryAt(x.entries, y);
    assert s[n + 5..] == EntryBytes(x.entries);
    assert s[n + 5 + 4 * y..n + 9 + 4 * y] == s[n + 5..][4 * y..4 * y + 4];
  }

  lemma {:induction false} EntryAt(ports: seq<long>, y: nat)
    requires y < |ports|
    ensures EntryBytes(ports)[4 * y..4 * y + 4] == LongBytes(ToWord(ports[y]))
    decreases |ports|
  {
    var rest := EntryBytes(ports[..|ports| - 1]);
    assert EntryBytes(ports)[..|rest|] == rest;
    if y < |ports| - 1 {
      EntryAt(ports[..|ports| - 1], y);
      assert EntryBytes(ports)[4 * y..4 * y + 4] == rest[4 * y..4 * y + 4];
    } else {
      assert EntryBytes(ports)[4 * y..4 * y + 4] == EntryBytes(ports)[|rest|..];
    }
  }

  lemma SlotsNext(slots: seq<Slot>, x: nat)
    requires Storable(slots) && x < |slots|
    ensures BytesUpTo(slots, x + 1) == BytesUpTo(slots, x) + SlotBytes(slots[x])
    ensures BytesUpTo(slots, x + 1) <= MountBytes(slots)
  {
    assert slots[..x + 1][..x] == slots[..x];
    SlotsPrefix(slots, x + 1);
  }

  lemma {:induction false} SlotsPrefix(slots: seq<Slot>, x: nat)
    requires Storable(slots) && x <= |slots|
    ensures SlotsBytes(slots[..x]) <= SlotsBytes(slots)
    decreases |slots| - x
  {
    if x < |slots| {
      assert slots[..x + 1][..x] == slots[..x];
      SlotsPrefix(slots, x + 1);
    } else {
      assert slots[..x] == slots;
    }
  }

  lemma AllSlots(slots: seq<Slot>)
    requires Storable(slots)
    ensures BytesUpTo(slots, 0) == LongBytes(|slots|) && BytesUpTo(slots, |slots|) == MountBytes(slots)
  {
    assert slots[..|slots|] == slots;
  }

  lemma EntriesNext(ports: seq<long>, y: nat)
    requires y < |ports|
    ensures EntryBytes(ports[..y + 1]) == EntryBytes(ports[..y]) + LongBytes(ToWord(ports[y]))
    ensures EntryBytes(ports[..y + 1]) <= EntryBytes(ports)
  {
    assert ports[..y + 1][..y] == ports[..y];
    EntriesPrefix(ports, y + 1);
  }

  lemma {:induction false} EntriesPrefix(ports: seq<long>, y: nat)
    requires y <= |ports|
    ensures EntryBytes(ports[..y]) <= EntryBytes(ports)
    decreases |ports| - y
  {
    if y < |ports| {
      assert ports[..y + 1][..y] == ports[..y];
      EntriesPrefix(ports, y + 1);
    } else {
      assert ports[..y] == ports;
    }
  }

  lemma PrefixHolds(a: seq<byte>, p: nat, s: seq<byte>, t: seq<byte>)
    requires Holds(a, p, t) && s <= t
    ensures Holds(a, p, s)
  {
    assert t == s + t[|s|..];
    HoldsParts(a, p, s, t[|s|..]);
  }

  class MountTable {
    var slots: seq<Slot>

    constructor ()
      ensures slots == []
    {
      slots := [];
    }

    // mountport: the port is tried first from now on; other mount points are as they were.
    method MountPort(point: seq<byte>, port: long)
      requires UniqueNames(slots)
      modifies this
      ensures UniqueNames(slots)
      ensures Mounted(slots, point) == [port] + Mounted(old(slots), point)
      ensures forall name | name != point :: Mounted(slots, name) == Mounted(old(slots), name)
      ensures |slots| == |old(slots)| + if exists s :: s in old(slots) && s.name == point then 0 else 1
      ensures forall i | 0 <= i < |old(slots)| :: slots[i].name == old(slots)[i].name
    {
      ghost var was := slots;
      var x := 0;
      while x < |slots| && point != slots[x].name
        invariant x <= |slots| && forall i | 0 <= i < x :: slots[i].name != point
      {
        x := x + 1;
      }
      if x >= |slots| {
        NotMounted(slots, point);
        var mt := Slot(point, []);
        slots := slots + [mt.(entries := [port] + mt.entries)];
        assert [port] + mt.entries == [port];
        forall name ensures Mounted(slots, name) == if name == point then [port] else Mounted(was, name) {
          MountedAppend(was, Slot(point, [port]), name);
        }
      } else {
        var mt := slots[x];
        MountedAt(slots, x);
        slots := slots[x := mt.(entries := [port] + mt.entries)];
        MountedAt(slots, x);
        forall name | name != point ensures Mounted(slots, name) == Mounted(was, name) {
          MountedElsewhere(was, x, [port] + mt.entries, name);
        }
      }
    }

    // __mount_size
    method Size() returns (len: nat)
      requires Storable(slots)
      ensures len == |MountBytes(slots)|
    {
      AllSlots(slots);
      len := 4;
      for x := 0 to |slots|
        invariant len == |BytesUpTo(slots, x)|
      {
        SlotsNext(slots, x);
        var mt := slots[x];
        len := len + |mt.name| + 1;
        len := len + 4;
        for me := 0 to |mt.entries|
          invariant len == |BytesUpTo(slots, x)| + |mt.name| + 1 + 4 + 4 * me
        {
          len := len + 4;
        }
      }
    }

    // __mount_save
    method Save(area: array<byte>, p: nat) returns (p': nat)
      requires Storable(slots) && p + |MountBytes(slots)| <= area.Length
      modifies area
      ensures p' == p + |MountBytes(slots)| && Wrote(old(area[..]), area[..], p, MountBytes(slots))
    {
      AllSlots(slots);
      p' := PutWord(area, p, |slots|);
      for x := 0 to |slots|
        invariant p' == p + |BytesUpTo(slots, x)| && Wrote(old(area[..]), area[..], p, BytesUpTo(slots, x))
      {
        p' := SaveNext(x, area, p', old(area[..]), p);
      }
    }

    method SaveNext(x: nat, area: array<byte>, p: nat, ghost was: seq<byte>, ghost base: nat) returns (p': nat)
      requires Storable(slots) && x < |slots| && base + |MountBytes(slots)| <= area.Length
      requires p == base + |BytesUpTo(slots, x)| && Wrote(was, area[..], base, BytesUpTo(slots, x))
      modifies area
      ensures p' == base + |BytesUpTo(slots, x + 1)| && Wrote(was, area[..], base, BytesUpTo(slots, x + 1))
    {
      SlotsNext(slots, x);
      ghost var before := area[..];
      p' := SaveSlot(slots[x], area, p);
      WroteBoth(was, before, area[..], base, BytesUpTo(slots, x), SlotBytes(slots[x]));
    }

    // __mount_restore, into the table of the new program
    method Restore(area: array<byte>, p: nat, ghost was: seq<Slot>) returns (p': nat)
      requires Storable(was) && Holds(area[..], p, MountBytes(was))
      modifies this
      ensures slots == was && p' == p + |MountBytes(was)|
    {
      AllSlots(was);
      HoldsParts(area[..], p, LongBytes(|was|), SlotsBytes(was));
      var len;
      len, p' := GetWord(area, p, |was|);
      slots := [];
      for x := 0 to len
        invariant slots == was[..x] && p' == p + |BytesUpTo(was, x)|
      {
        SlotsNext(was, x);
        PrefixHolds(area[..], p, BytesUpTo(was, x + 1), MountBytes(was));
        HoldsParts(area[..], p, BytesUpTo(was, x), SlotBytes(was[x]));
        var mt;
        mt, p' := RestoreSlot(area, p', was[x]);
        slots := slots + [mt];
      }
    }
  }

  // One slot: the count of entries is filled in after them.
  method SaveSlot(mt: Slot, area: array<byte>, p: nat) returns (p': nat)
    requires CString(mt.name) && |mt.entries| < ULONG_RANGE && p + |SlotBytes(mt)| <= area.Length
    modifies area
    ensures p' == p + |SlotBytes(mt)| && Wrote(old(area[..]), area[..], p, SlotBytes(mt))
  {
    ghost var was := area[..];
    p' := PutString(area, p, mt.name);
    ghost var named := area[..];
    var lp := p';
    p' := p' + 4;
    var l;
    l, p' := SaveEntries(mt.entries, area, p');
    ghost var filled := area[..];
    var _ := PutWord(area, lp, l);
    BackPatched(named, filled, area[..], lp, LongBytes(l), EntryBytes(mt.entries));
    WroteBoth(was, named, area[..], p, StringBytes(mt.name), LongBytes(l) + EntryBytes(mt.entries));
    Reassociate(StringBytes(mt.name), LongBytes(l), EntryBytes(mt.entries));
  }

  // The walk over the entries of a slot.
  method SaveEntries(entries: seq<long>, area: array<byte>, p: nat) returns (l: nat, p': nat)
    requires p + |EntryBytes(entries)| <= area.Length
    modifies area
    ensures l == |entries| && p' == p + |EntryBytes(entries)|
    ensures Wrote(old(area[..]), area[..], p, EntryBytes(entries))
  {
    p', l := p, 0;
    WroteNothing(area[..], p);
    while l < |entries|
      invariant l <= |entries| && p' == p + 4 * l
      invariant Wrote(old(area[..]), area[..], p, EntryBytes(entries[..l]))
    {
      EntriesNext(entries, l);
      ghost var before := area[..];
      p' := PutWord(area, p', ToWord(entries[l]));
      WroteBoth(old(area[..]), before, area[..], p, EntryBytes(entries[..l]), LongBytes(ToWord(entries[l])));
      l := l + 1;
    }
    assert entries[..l] == entries;
  }

  // Filling a gap left before a later item gives what writing in order would have.
  lemma BackPatched(was: seq<byte>, a: seq<byte>, b: seq<byte>, p: nat, s: seq<byte>, t: seq<byte>)
    requires Wrote(was, a, p + |s|, t) && Wrote(a, b, p, s)
    ensures Wrote(was, b, p, s + t)
  {
    assert b[..p] == a[..p + |s|][..p] == was[..p + |s|][..p] == was[..p];
    assert b[p + |s|..p + |s| + |t|] == b[p + |s|..][..|t|] == a[p + |s|..p + |s| + |t|] == t;
    assert b[p..p + |s| + |t|] == b[p..p + |s|] + b[p + |s|..p + |s| + |t|];
    assert b[p + |s| + |t|..] == b[p + |s|..][|t|..] == a[p + |s| + |t|..];
  }

  method RestoreSlot(area: array<byte>, p: nat, ghost was: Slot) returns (mt: Slot, p': nat)
    requires CString(was.name) && |was.entries| < ULONG_RANGE && Holds(area[..], p, SlotBytes(was))
    ensures mt == was && p' == p + |SlotBytes(was)|
  {
    HoldsParts(area[..], p, StringBytes(was.name) + LongBytes(|was.entries|), EntryBytes(was.entries));
    HoldsParts(area[..], p, StringBytes(was.name), LongBytes(|was.entries|));
    var name, l, entries;
    name, p' := GetString(area, p, was.name);
    l, p' := GetWord(area, p', |was.entries|);
    entries, p' := RestoreEntries(l, area, p', was.entries);
    mt := Slot(name, entries);
  }

  method RestoreEntries(l: nat, area: array<byte>, p: nat, ghost was: seq<long>) returns (entries: seq<long>, p': nat)
    requires l == |was| && Holds(area[..], p, EntryBytes(was))
    ensures entries == was && p' == p + |EntryBytes(was)|
  {
    p', entries := p, [];
    for y := 0 to l
      invariant entries == was[..y] && p' == p + |EntryBytes(was[..y])|
    {
      EntriesNext(was, y);
      PrefixHolds(area[..], p, EntryBytes(was[..y + 1]), EntryBytes(was));
      HoldsParts(area[..], p, EntryBytes(was[..y]), LongBytes(ToWord(was[y])));
      var w;
      w, p' := GetWord(area, p', ToWord(was[y]));
      entries := entries + [FromWord(w)];
    }
  }
}
