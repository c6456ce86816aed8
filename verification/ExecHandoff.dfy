/** What execv packs into the area it hands to the new program and what that program's startup
  code unpacks (src/libc/mach/exec.c, src/libc/start.c, and the cwd routines of
  src/libc/open.c). */
module ExecHandoff {
  import opened Options
  import opened Words
  import opened ByteArea
  import opened Descriptors
  import opened FdlState
  import opened FdlRestore
  import opened MountTable

  // ---- Arguments ----

  predicate Passable(argv: seq<seq<byte>>) {
    |argv| < ULONG_RANGE && forall s | s in argv :: CString(s)
  }

  function Strings(argv: seq<seq<byte>>): (r: seq<byte>) {
    if argv == [] then [] else Strings(argv[..|argv| - 1]) + StringBytes(argv[|argv| - 1])
  }

  // The bytes of the first n arguments after the count.
  function ArgsUpTo(argv: seq<seq<byte>>, n: nat): (r: seq<byte>)
    requires n <= |argv| < ULONG_RANGE
  {
    LongBytes(|argv|) + Strings(argv[..n])
  }

  function ArgBytes(argv: seq<seq<byte>>): (r: seq<byte>)
    requires Passable(argv)
  {
    ArgsUpTo(argv, |argv|)
  }

  lemma {:induction false} ArgNext(argv: seq<seq<byte>>, n: nat)
    requires Passable(argv) && n < |argv|
    ensures ArgsUpTo(argv, n + 1) == ArgsUpTo(argv, n) + StringBytes(argv[n])
    ensures ArgsUpTo(argv, n + 1) <= ArgBytes(argv)
    decreases |argv| - n
  {
    assert argv[..n + 1][..n] == argv[..n];
    if n + 1 < |argv| {
      ArgNext(argv, n + 1);
    }
  }

  // The first loop of execv
  method ArgsSize(argv: seq<seq<byte>>) returns (plen: nat)
    requires Passable(argv)
    ensures plen == |ArgBytes(argv)|
  {
    plen := 4;
    for narg := 0 to |argv|
      invariant plen == |ArgsUpTo(argv, narg)|
    {
      ArgNext(argv, narg);
      plen := plen + |argv[narg]| + 1;
    }
  }

  // The second
  method PackArgs(area: array<byte>, p: nat, argv: seq<seq<byte>>) returns (p': nat)
    requires Passable(argv) && p + |ArgBytes(argv)| <= area.Length
    modifies area
    ensures p' == p + |ArgBytes(argv)| && Wrote(old(area[..]), area[..], p, ArgBytes(argv))
  {
    p' := PutWord(area, p, |argv|);
    assert ArgsUpTo(argv, 0) == LongBytes(|argv|);
    for narg := 0 to |argv|
      invariant p' == p + |ArgsUpTo(argv, narg)| && Wrote(old(area[..]), area[..], p, ArgsUpTo(argv, narg))
    {
      ArgNext(argv, narg);
      ghost var before := area[..];
      p' := PutString(area, p', argv[narg]);
      WroteBoth(old(area[..]), before, area[..], p, ArgsUpTo(argv, narg), StringBytes(argv[narg]));
    }
  }

  // The loop of __start
  method UnpackArgs(area: array<byte>, p: nat, ghost was: seq<seq<byte>>) returns (argv: seq<seq<byte>>, p': nat)
    requires Passable(was) && Holds(area[..], p, ArgBytes(was))
    ensures argv == was && p' == p + |ArgBytes(was)|
  {
    HoldsParts(area[..], p, LongBytes(|was|), Strings(was[..|was|]));
    var argc;
    argc, p' := GetWord(area, p, |was|);
    argv := [];
    assert ArgsUpTo(was, 0) == LongBytes(|was|);
    for x := 0 to argc
      invariant argv == was[..x] && p' == p + |ArgsUpTo(was, x)|
    {
      ArgNext(was, x);
      PrefixHolds(area[..], p, ArgsUpTo(was, x + 1), ArgBytes(was));
      HoldsParts(area[..], p, ArgsUpTo(was, x), StringBytes(was[x]));
      var s;
      s, p' := GetString(area, p', was[x]);
      argv := argv + [s];
    }
  }

  // ---- The command's name ----

  const SLASH: byte := 47

  // What follows the last slash.
  function BaseName(s: seq<byte>): (r: seq<byte>) {
    if SLASH !in s then s else BaseName(s[1..])
  }

  lemma {:induction false} BaseNameIs(s: seq<byte>, q: nat)
    requires q <= |s| && (q > 0 ==> s[q - 1] == SLASH) && SLASH !in s[q..]
    ensures BaseName(s) == s[q..]
  {
    if q > 0 {
      assert s[1..][q - 1..] == s[q..];
      assert q > 1 ==> s[1..][q - 2] == s[q - 1];
      BaseNameIs(s[1..], q - 1);
    }
  }

  // The vector that __start makes: pointers to the arguments, and a null pointer after them.
  function Vector(argv: seq<seq<byte>>): (v: seq<Option<seq<byte>>>)
    ensures |v| == |argv| + 1
    ensures forall i | 0 <= i < |argv| :: v[i] == Some(argv[i])
    ensures v[|argv|] == None
  {
    if argv == [] then [None] else [Some(argv[0])] + Vector(argv[1..])
  }

  // Its first pointer is null exactly if there are no arguments, as when execv is given none.
  lemma NoFirstArgument(argv: seq<seq<byte>>)
    ensures if argv == [] then Vector(argv)[0].None? else Vector(argv)[0] == Some(argv[0])
    ensures Passable([]) && ArgBytes([]) == LongBytes(0) && Vector([]) == [None]
  {
    assert ArgBytes([]) == LongBytes(0) + [];
  }

  // The call of strrchr, and what set_cmd is given.  A null pointer is followed all the same: then
  // the program goes no further.
  method FindCommand(arg: Option<seq<byte>>) returns (ok: bool, name: seq<byte>)
    ensures ok <==> arg.Some?
    ensures ok ==> name == BaseName(arg.value)
  {
    if arg.None? {
      return false, [];
    }
    var s := arg.value;
    var q := 0;
    for i := 0 to |s|
      invariant q <= i && (q > 0 ==> s[q - 1] == SLASH) && SLASH !in s[q..i]
    {
      if s[i] == SLASH {
        q := i + 1;
      }
    }
    assert s[q..|s|] == s[q..];
    BaseNameIs(s, q);
    return true, s[q..];
  }

  // ---- The current directory ----

  // A count in one byte, and the string.
  function CwdBytes(cwd: seq<byte>): (s: seq<byte>)
    ensures |s| == |cwd| + 2
  {
    [((|cwd| + 1) % 256) as byte] + StringBytes(cwd)
  }

  // What the reader takes: as many bytes as the count says.
  function CwdTaken(cwd: seq<byte>): (s: seq<byte>)
    ensures |s| == (|cwd| + 1) % 256
  {
    StringBytes(cwd)[..(|cwd| + 1) % 256]
  }

  // The current directory survives exactly if it has at most 254 characters.
  lemma CwdSurvives(cwd: seq<byte>)
    ensures CwdTaken(cwd) == StringBytes(cwd) <==> |cwd| <= 254
  {
    if |cwd| <= 254 {
      assert StringBytes(cwd)[..|cwd| + 1] == StringBytes(cwd);
    }
  }

  // __cwd_save
  method CwdSave(area: array<byte>, p: nat, cwd: seq<byte>)
    requires p + |CwdBytes(cwd)| <= area.Length
    modifies area
    ensures Wrote(old(area[..]), area[..], p, CwdBytes(cwd))
  {
    ghost var was := area[..];
    ghost var count := [((|cwd| + 1) % 256) as byte];
    area[p] := ((|cwd| + 1) % 256) as byte;
    assert Wrote(was, area[..], p, count);
    ghost var before := area[..];
    var _ := PutString(area, p + 1, cwd);
    WroteBoth(was, before, area[..], p, count, StringBytes(cwd));
  }

  // __cwd_restore
  method CwdRestore(area: array<byte>, p: nat, ghost was: seq<byte>) returns (cwd: seq<byte>, p': nat)
    requires Holds(area[..], p, CwdBytes(was))
    ensures cwd == CwdTaken(was) && p' == p + 1 + |CwdTaken(was)|
  {
    HoldsParts(area[..], p, [((|was| + 1) % 256) as byte], StringBytes(was));
    var len := area[p] as nat;
    assert area[..][p..p + 1][0] == ((|was| + 1) % 256) as byte;
    assert area[p + 1..p + 1 + len] == area[..][p + 1..p + 1 + |StringBytes(was)|][..len];
    cwd := area[p + 1..p + 1 + len];
    p' := p + 1 + len;
  }

  // ---- The whole area ----

  // The program's arguments and descriptors, and its names.
  function FirstHalf(argv: seq<seq<byte>>, recs: seq<Record>): (r: seq<byte>)
    requires Passable(argv) && Savable(recs)
  {
    ArgBytes(argv) + FdlBytes(recs)
  }

  function SecondHalf(slots: seq<Slot>, cwd: seq<byte>): (r: seq<byte>)
    requires Storable(slots)
  {
    MountBytes(slots) + CwdBytes(cwd)
  }

  function Handoff(argv: seq<seq<byte>>, recs: seq<Record>, slots: seq<Slot>, cwd: seq<byte>): (r: seq<byte>)
    requires Passable(argv) && Savable(recs) && Storable(slots)
  {
    FirstHalf(argv, recs) + SecondHalf(slots, cwd)
  }

  // Where the parts lie, and how they begin.
  lemma HandoffLayout(argv: seq<seq<byte>>, recs: seq<Record>, slots: seq<Slot>, cwd: seq<byte>)
    requires Passable(argv) && Savable(recs) && Storable(slots)
    ensures var all := Handoff(argv, recs, slots, cwd);
            var a, f, m := |ArgBytes(argv)|, |FdlBytes(recs)|, |MountBytes(slots)|;
            && all[..a] == ArgBytes(argv) && all[a..a + f] == FdlBytes(recs)
            && all[a + f..a + f + m] == MountBytes(slots) && all[a + f + m..] == CwdBytes(cwd)
    ensures ArgBytes(argv)[..4] == LongBytes(|argv|) && MountBytes(slots)[..4] == LongBytes(|slots|)
    ensures CwdBytes(cwd)[0] as int == (|cwd| + 1) % 256 && CwdBytes(cwd)[1..] == cwd + [0]
  {
    var a, f := ArgBytes(argv), FdlBytes(recs);
    var all := Handoff(argv, recs, slots, cwd);
    assert all[..|a| + |f|] == a + f && all[|a| + |f|..] == SecondHalf(slots, cwd);
    assert all[..|a|] == (a + f)[..|a|] && all[|a|..|a| + |f|] == (a + f)[|a|..];
    var m := MountBytes(slots);
    assert all[|a| + |f|..|a| + |f| + |m|] == SecondHalf(slots, cwd)[..|m|];
    assert all[|a| + |f| + |m|..] == SecondHalf(slots, cwd)[|m|..];
    assert argv[..|argv|] == argv;
  }

  // Argument n is found after the count and the arguments before it, with its terminator.
  lemma ArgumentAt(argv: seq<seq<byte>>, n: nat)
    requires Passable(argv) && n < |argv|
    ensures var p := |ArgsUpTo(argv, n)|;
            && |ArgsUpTo(argv, 0)| == 4 && |ArgsUpTo(argv, n + 1)| == p + |argv[n]| + 1 <= |ArgBytes(argv)|
            && ArgBytes(argv)[p..p + |argv[n]| + 1] == argv[n] + [0]
  {
    ArgNext(argv, n);
    var p, q := |ArgsUpTo(argv, n)|, |ArgsUpTo(argv, n + 1)|;
    assert ArgBytes(argv)[p..q] == ArgBytes(argv)[..q][p..] == ArgsUpTo(argv, n + 1)[p..];
  }

  lemma AllSavable(view: View, recs: seq<Record>)
    requires Saves(view, recs) && 4 + 12 * |view| < ULONG_RANGE
    ensures Savable(recs) && |FdlBytes(recs)| == 4 + 12 * |view|
  {
    forall i | 0 <= i < |recs| ensures recs[i].fd >= 0 {
      assert Named(view, recs, i);
    }
  }

  method PackFirst(argv: seq<seq<byte>>, t: FdTable, area: array<byte>, fdlLen: ulong)
    returns (p: nat, ghost recs: seq<Record>)
    requires Passable(argv) && t.ViewOk() && area !in t.frame
    requires fdlLen == 4 + 12 * |t.view| && |ArgBytes(argv)| + fdlLen <= area.Length
    modifies area
    ensures Saves(t.view, recs) && Savable(recs) && PosSaved(t.view, recs)
    ensures p == |FirstHalf(argv, recs)| && Wrote(old(area[..]), area[..], 0, FirstHalf(argv, recs))
  {
    ghost var was := area[..];
    p := PackArgs(area, 0, argv);
    ghost var packed := area[..];
    recs := FdlSave(t, area, p, fdlLen);
    AllSavable(t.view, recs);
    WroteBoth(was, packed, area[..], 0, ArgBytes(argv), FdlBytes(recs));
    p := p + fdlLen;
  }

  method PackSecond(m: MountTable, cwd: seq<byte>, area: array<byte>, p: nat, mntLen: nat)
    requires Storable(m.slots) && mntLen == |MountBytes(m.slots)| && p + |SecondHalf(m.slots, cwd)| <= area.Length
    modifies area
    ensures Wrote(old(area[..]), area[..], p, SecondHalf(m.slots, cwd))
  {
    ghost var was := area[..];
    var _ := m.Save(area, p);
    ghost var saved := area[..];
    CwdSave(area, p + mntLen, cwd);
    WroteBoth(was, saved, area[..], p, MountBytes(m.slots), CwdBytes(cwd));
  }

  method Sizes(argv: seq<seq<byte>>, t: FdTable, m: MountTable, cwd: seq<byte>)
    returns (plen: nat, fdlLen: nat, mntLen: nat)
    requires Passable(argv) && t.ViewOk() && Storable(m.slots)
    ensures fdlLen == 4 + 12 * |t.view| && mntLen == |MountBytes(m.slots)|
    ensures plen == |ArgBytes(argv)| + fdlLen + |SecondHalf(m.slots, cwd)|
  {
    plen := ArgsSize(argv);
    fdlLen := FdlSize(t);
    plen := plen + fdlLen;
    mntLen := m.Size();
    plen := plen + mntLen;
    var cwdLen := |cwd| + 2;
    plen := plen + cwdLen;
  }

  // execv, from the sizes to the last part
  method Pack(argv: seq<seq<byte>>, t: FdTable, m: MountTable, cwd: seq<byte>)
    returns (area: array<byte>, ghost recs: seq<Record>)
    requires Passable(argv) && t.ViewOk() && 4 + 12 * |t.view| < ULONG_RANGE && Storable(m.slots)
    ensures fresh(area) && Saves(t.view, recs) && Savable(recs) && PosSaved(t.view, recs)
    ensures area[..] == Handoff(argv, recs, m.slots, cwd)
  {
    var plen, fdlLen, mntLen := Sizes(argv, t, m, cwd);
    area := new byte[plen];
    ghost var was := area[..];
    var p;
    p, recs := PackFirst(argv, t, area, fdlLen);
    ghost var half := area[..];
    PackSecond(m, cwd, area, p, mntLen);
    WroteAll(was, half, area[..], FirstHalf(argv, recs), SecondHalf(m.slots, cwd));
  }

  lemma WroteAll(was: seq<byte>, half: seq<byte>, a: seq<byte>, s: seq<byte>, t: seq<byte>)
    requires Wrote(was, half, 0, s) && Wrote(half, a, |s|, t) && |s| + |t| == |a|
    ensures a == s + t
  {
    WroteBoth(was, half, a, 0, s, t);
    assert a[0..|s + t|] == a;
  }

  method UnpackSecond(area: array<byte>, a: nat, m: MountTable, ghost slots: seq<Slot>, ghost cwd0: seq<byte>)
    returns (cwd: seq<byte>, a': nat)
    requires Storable(slots) && Holds(area[..], a, SecondHalf(slots, cwd0))
    modifies m
    ensures m.slots == slots && cwd == CwdTaken(cwd0)
    ensures a' == a + |MountBytes(slots)| + 1 + |CwdTaken(cwd0)|
  {
    HoldsParts(area[..], a, MountBytes(slots), CwdBytes(cwd0));
    a' := m.Restore(area, a, slots);
    cwd, a' := CwdRestore(area, a', cwd0);
  }

  // The readers of __start after the arguments.
  method UnpackState(area: array<byte>, a: nat, t: FdTable, m: MountTable, nulls: set<long>, ghost recs: seq<Record>,
                     ghost slots: seq<Slot>, ghost cwd0: seq<byte>)
    returns (cwd: seq<byte>, a': nat)
    requires Savable(recs) && Storable(slots) && Holds(area[..], a, FdlBytes(recs) + SecondHalf(slots, cwd0))
    requires t.Valid() && t.view == map[] && area !in t.frame
    modifies t`fdhash, t`view, t`frame, t.fdmap, t.frame, m, area
    ensures t.Valid() && Restored(recs, All(recs), t.view) && Opened(t.view, recs, nulls)
    ensures m.slots == slots && cwd == CwdTaken(cwd0)
    ensures a' == a + |FdlBytes(recs)| + |MountBytes(slots)| + 1 + |CwdTaken(cwd0)|
  {
    ghost var was := area[..];
    HoldsParts(was, a, FdlBytes(recs), SecondHalf(slots, cwd0));
    a' := RestoreTable(t, area, a, recs, nulls);
    StillHolds(was, area[..], a', SecondHalf(slots, cwd0));
    cwd, a' := UnpackSecond(area, a', m, slots, cwd0);
  }

  // __start, in a new program; nulls are the ports whose servers answer that their type is "null".
  // Without arguments it fails at the name of the command, before anything else is restored.
  // Otherwise it unmaps the area up to where the last reader stopped.
  method Unpack(area: array<byte>, t: FdTable, m: MountTable, nulls: set<long>, ghost argv0: seq<seq<byte>>,
                ghost recs: seq<Record>, ghost slots: seq<Slot>, ghost cwd0: seq<byte>)
    returns (argv: seq<seq<byte>>, ok: bool, name: seq<byte>, cwd: seq<byte>, a: nat)
    requires Passable(argv0) && Savable(recs) && Storable(slots) && area[..] == Handoff(argv0, recs, slots, cwd0)
    requires t.Valid() && t.view == map[] && area !in t.frame
    modifies t`fdhash, t`view, t`frame, t.fdmap, t.frame, m, area
    ensures argv == argv0 && t.Valid()
    ensures ok <==> argv0 != []
    ensures ok ==> name == BaseName(argv0[0])
    ensures !ok ==> t.view == map[] && m.slots == old(m.slots) && cwd == []
    ensures ok ==> Restored(recs, All(recs), t.view) && Opened(t.view, recs, nulls)
    ensures ok ==> m.slots == slots && cwd == CwdTaken(cwd0)
    ensures ok ==> (a == area.Length <==> |cwd0| <= 254)
  {
    HandoffIs(area[..], argv0, recs, slots, cwd0);
    argv, a := UnpackArgs(area, 0, argv0);
    NoFirstArgument(argv);
    ok, name := FindCommand(Vector(argv)[0]);
    cwd := [];
    if ok {
      cwd, a := UnpackState(area, a, t, m, nulls, recs, slots, cwd0);
      WholeArea(argv0, recs, slots, cwd0, a);
    }
  }

  lemma WholeArea(argv: seq<seq<byte>>, recs: seq<Record>, slots: seq<Slot>, cwd: seq<byte>, a: nat)
    requires Passable(argv) && Savable(recs) && Storable(slots)
    requires a == |ArgBytes(argv)| + |FdlBytes(recs)| + |MountBytes(slots)| + 1 + |CwdTaken(cwd)|
    ensures a == |Handoff(argv, recs, slots, cwd)| <==> |cwd| <= 254
  {
    CwdSurvives(cwd);
  }

  lemma HandoffIs(a: seq<byte>, argv: seq<seq<byte>>, recs: seq<Record>, slots: seq<Slot>, cwd: seq<byte>)
    requires Passable(argv) && Savable(recs) && Storable(slots) && a == Handoff(argv, recs, slots, cwd)
    ensures Holds(a, 0, ArgBytes(argv)) && Holds(a, |ArgBytes(argv)|, FdlBytes(recs) + SecondHalf(slots, cwd))
  {
    var rest := FdlBytes(recs) + SecondHalf(slots, cwd);
    assert a == ArgBytes(argv) + rest;
    assert Holds(a, 0, a);
    HoldsParts(a, 0, ArgBytes(argv), rest);
  }

  lemma StillHolds(was: seq<byte>, a: seq<byte>, p: nat, s: seq<byte>)
    requires Holds(was, p, s) && |a| == |was| && a[p..] == was[p..]
    ensures Holds(a, p, s)
  {
    assert a[p..p + |s|] == a[p..][..|s|] == was[p..][..|s|] == was[p..p + |s|];
  }

  // What the descriptors of the new program are, against those of the old one.
  ghost predicate SameDescriptors(view: View, view': View)
    reads view.Values, view'.Values
  {
    && view'.Keys == view.Keys
    && (forall fd | fd in view :: view'[fd].number == view[fd].number && view'[fd].isNull == view[fd].isNull)
    && (forall fd | fd in view :: !view[fd].isNull ==> view'[fd].pos == 0)
    && (OneEach(view) ==> forall fd | fd in view :: view[fd].isNull ==> view'[fd].pos == view[fd].pos)
    && (OneEach(view) <==> forall f, g | f in view && g in view :: view'[f] == view'[g] <==> view[f] == view[g])
    && (OneEach(view) ==> forall f | f in view :: view'[f].refs == |Fds(view, view[f])|)
  }

  // Servers answer for a port as they did when it was opened.
  ghost predicate Answers(view: View, nulls: set<long>) {
    forall p | p in view.Values :: p.isNull == (p.number in nulls)
  }

  lemma DescriptorsKept(view: View, recs: seq<Record>, t: FdTable, nulls: set<long>)
    requires Saves(view, recs) && PosSaved(view, recs) && Answers(view, nulls)
    requires t.Valid() && Restored(recs, All(recs), t.view) && Opened(t.view, recs, nulls)
    ensures SameDescriptors(view, t.view)
  {
    SharingByNumber(view, recs, t.view);
    SharingKept(view, recs, t.view);
    forall f | f in view
      ensures t.view[f].refs == |Fds(t.view, t.view[f])| && t.view[f].isNull == view[f].isNull
      ensures t.view[f].pos == if view[f].isNull then FirstPos(recs, view[f].number) else 0
      ensures OneEach(view) ==> FirstPos(recs, view[f].number) == view[f].pos
    {
      assert t.view[f] in t.view.Values && Counted(t.view, t.view[f]) && view[f] in view.Values;
      if OneEach(view) {
        SavedPos(view, recs, f);
      }
    }
  }

  // The new program's own state, before and after __start.
  method Begin(area: array<byte>, nulls: set<long>, ghost argv0: seq<seq<byte>>, ghost recs: seq<Record>,
               ghost slots: seq<Slot>, ghost cwd0: seq<byte>)
    returns (argv: seq<seq<byte>>, ok: bool, name: seq<byte>, t: FdTable, m: MountTable, cwd: seq<byte>)
    requires Passable(argv0) && Savable(recs) && Storable(slots) && area[..] == Handoff(argv0, recs, slots, cwd0)
    modifies area
    ensures argv == argv0 && t.Valid()
    ensures ok <==> argv0 != []
    ensures ok ==> name == BaseName(argv0[0])
    ensures !ok ==> t.view == map[] && m.slots == [] && cwd == []
    ensures ok ==> Restored(recs, All(recs), t.view) && Opened(t.view, recs, nulls)
    ensures ok ==> m.slots == slots && cwd == CwdTaken(cwd0)
  {
    t := new FdTable();
    m := new MountTable();
    var a;
    argv, ok, name, cwd, a := Unpack(area, t, m, nulls, argv0, recs, slots, cwd0);
  }

  // The whole handoff: what the new program has, against what the old one had.  Everything is
  // restored if and only if there are arguments; with none the new program fails first.
  method Exec(argv: seq<seq<byte>>, t: FdTable, m: MountTable, cwd: seq<byte>, nulls: set<long>)
    returns (argv': seq<seq<byte>>, ok: bool, name: seq<byte>, t': FdTable, m': MountTable, cwd': seq<byte>)
    requires Passable(argv) && t.ViewOk() && 4 + 12 * |t.view| < ULONG_RANGE && Storable(m.slots)
    requires Answers(t.view, nulls)
    ensures argv' == argv && t'.Valid()
    ensures ok <==> argv != []
    ensures ok ==> name == BaseName(argv[0])
    ensures !ok ==> t'.view == map[] && m'.slots == [] && cwd' == []
    ensures ok ==> SameDescriptors(t.view, t'.view) && m'.slots == m.slots
    ensures ok ==> cwd' == CwdTaken(cwd)
    ensures cwd' == StringBytes(cwd) <==> argv != [] && |cwd| <= 254
  {
    ghost var view, slots := t.view, m.slots;
    var area;
    ghost var recs;
    area, recs := Pack(argv, t, m, cwd);
    argv', ok, name, t', m', cwd' := Begin(area, nulls, argv, recs, slots, cwd);
    CwdSurvives(cwd);
    if ok {
      DescriptorsKept(view, recs, t', nulls);
    }
  }
}
