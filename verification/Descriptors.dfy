/** The file descriptor table (src/libc/fdl.c): descriptors below NFD are slots of an
  array, the others are keys of a hash.  Several descriptors may share a port, which
  counts them and is closed with the last. */
module Descriptors {
  import opened Options
  import opened Sets
  import opened Words
  import H = Hash

  const NFD := 32

  // A port to a server. Its type is what the server answers when asked; a port of type "null" is
  // handled within the process.
  class Port {
    const number: long
    const isNull: bool
    const answer: int   // of the server, to a disconnect
    var refs: nat
    var pos: ulong
    var closed: bool

    constructor (number: long, pos: ulong, isNull: bool)
      ensures this.number == number && refs == 1 && this.pos == pos && this.isNull == isNull && !closed
    {
      this.number := number;
      this.isNull := isNull;
      answer := *;
      refs := 1;
      this.pos := pos;
      closed := false;
    }

    // What the port's close routine returns.
    function CloseResult(): (r: int) {
      if isNull then 0 else answer
    }
  }

  type View = map<nat, Port>

  // The descriptors of a port.
  ghost function Fds(view: View, p: Port): (r: set<nat>) {
    set fd | fd in view && view[fd] == p
  }

  lemma FdsAdd(view: View, fd: nat, p: Port, q: Port)
    requires fd !in view
    ensures |Fds(view[fd := p], q)| == |Fds(view, q)| + if q == p then 1 else 0
  {
    assert Fds(view[fd := p], q) == Fds(view, q) + if q == p then {fd} else {};
  }

  lemma FdsRemove(view: View, fd: nat, q: Port)
    requires fd in view
    ensures |Fds(view, q)| == |Fds(view - {fd}, q)| + if q == view[fd] then 1 else 0
  {
    assert Fds(view, q) == Fds(view - {fd}, q) + if q == view[fd] then {fd} else {};
  }

  lemma ReplaceFd(view: View, fd: nat, p: Port)
    ensures (view - {fd})[fd := p] == view[fd := p]
  {
  }

  lemma InUse(view: View, p: Port)
    ensures p in view.Values <==> |Fds(view, p)| > 0
  {
    if |Fds(view, p)| > 0 {
      var fd := PickOne(Fds(view, p));
    }
    if p in view.Values {
      var fd :| fd in view && view[fd] == p;
      assert fd in Fds(view, p);
    }
  }

  // What losing one descriptor means for each port.
  lemma AfterRemove(view: View, fd: nat)
    requires fd in view
    ensures var v, p := view - {fd}, view[fd];
            && |Fds(v, p)| == |Fds(view, p)| - 1
            && (p in v.Values <==> |Fds(v, p)| > 0)
            && (forall q | q in view.Values && q != p :: q in v.Values)
            && (forall q | q in v.Values && q != p :: |Fds(v, q)| == |Fds(view, q)|)
  {
    var v, p := view - {fd}, view[fd];
    InUse(v, p);
    FdsRemove(view, fd, p);
    forall q | q in view.Values && q != p ensures q in v.Values && |Fds(v, q)| == |Fds(view, q)| {
      var g :| g in view && view[g] == q;
      assert g in v && v[g] == q;
      FdsRemove(view, fd, q);
    }
  }

  // And what gaining one means.
  lemma AfterAdd(view: View, fd: nat, p: Port)
    requires fd !in view
    ensures var v := view[fd := p];
            && |Fds(v, p)| == |Fds(view, p)| + 1
            && (p !in view.Values ==> |Fds(view, p)| == 0)
            && (forall q | q in v.Values && q != p :: q in view.Values && |Fds(v, q)| == |Fds(view, q)|)
  {
    var v := view[fd := p];
    InUse(view, p);
    FdsAdd(view, fd, p, p);
    forall q | q in v.Values && q != p ensures q in view.Values && |Fds(v, q)| == |Fds(view, q)| {
      var g :| g in v && v[g] == q;
      assert g in view && view[g] == q;
      FdsAdd(view, fd, p, q);
    }
  }

  // ---- The hash as a map ----

  type Lists = seq<H.Pairs<Port>>

  // Keys are high descriptors, each once, in the chain where they are looked for.
  ghost predicate ChainOk(l: H.Pairs<Port>, b: nat) {
    H.UniqueKeys(l) && forall i | 0 <= i < |l| :: l[i].0 >= NFD && H.HashIdx(l[i].0, NFD) == b
  }

  ghost predicate ListsOk(lists: Lists) {
    |lists| == NFD && forall b {:trigger ChainOk(lists[b], b)} | 0 <= b < NFD :: ChainOk(lists[b], b)
  }

  ghost function ListsFind(lists: Lists, key: nat): (r: Option<Port>)
    requires |lists| == NFD
  {
    H.Find(lists[H.HashIdx(key, NFD)], key)
  }

  lemma ListsInsert(lists: Lists, key: nat, p: Port)
    requires ListsOk(lists) && ListsFind(lists, key) == None && key >= NFD
    ensures var b := H.HashIdx(key, NFD); var lists' := lists[b := [(key, p)] + lists[b]];
            && ListsOk(lists')
            && forall k: nat :: ListsFind(lists', k) == if k == key then Some(p) else ListsFind(lists, k)
  {
    var b := H.HashIdx(key, NFD);
    var l, l' := lists[b], [(key, p)] + lists[b];
    assert l'[1..] == l;
    assert ChainOk(l, b);
    assert H.IndexOf(l, key) == |l|;
    forall i, j | 0 <= i < j < |l'| ensures l'[i].0 != l'[j].0 {
      assert l'[j] == l[j - 1] && (i > 0 ==> l'[i] == l[i - 1]);
    }
    var lists' := lists[b := l'];
    forall c | 0 <= c < NFD ensures ChainOk(lists'[c], c) {
      assert ChainOk(lists[c], c);
    }
  }

  lemma WithoutStays(l: H.Pairs<Port>, b: nat, key: nat)
    requires ChainOk(l, b)
    ensures ChainOk(H.Without(l, key), b)
  {
    H.UniqueWithout(l, key);
    var r := H.Without(l, key);
    forall i | 0 <= i < |r| ensures r[i].0 >= NFD && H.HashIdx(r[i].0, NFD) == b {
      assert r[i] in l;
    }
  }

  lemma ListsDelete(lists: Lists, key: nat)
    requires ListsOk(lists)
    ensures var b := H.HashIdx(key, NFD); var lists' := lists[b := H.Without(lists[b], key)];
            && ListsOk(lists')
            && forall k: nat :: ListsFind(lists', k) == if k == key then None else ListsFind(lists, k)
  {
    var b := H.HashIdx(key, NFD);
    assert ChainOk(lists[b], b);
    forall k: nat ensures H.Find(H.Without(lists[b], key), k) == if k == key then None else H.Find(lists[b], k) {
      H.FindWithout(lists[b], key, k);
    }
    WithoutStays(lists[b], b, key);
    var lists' := lists[b := H.Without(lists[b], key)];
    forall c | 0 <= c < NFD ensures ChainOk(lists'[c], c) {
      assert ChainOk(lists[c], c);
    }
  }

  // ---- Some descriptor is always unused ----

  lemma {:induction false} UnusedExists(used: set<nat>, lo: nat, n: nat) returns (g: nat)
    requires |used| < n
    ensures lo <= g < lo + n && g !in used
    decreases n
  {
    if lo + n - 1 !in used {
      g := lo + n - 1;
    } else {
      g := UnusedExists(used - {lo + n - 1}, lo, n - 1);
    }
  }

  // How far the search for a high descriptor has to go from `from` to reach g.
  function Distance(from: nat, g: nat): (r: nat)
    requires NFD <= from <= INT_MAX && NFD <= g <= INT_MAX
  {
    if from <= g then g - from else g - from + (INT_MAX - NFD + 1)
  }

  // x is the descriptor to hand out when `from` is the next one above the array: the lowest unused one
  // of the array, or else the first unused one from there on, beginning again after the last.
  ghost predicate FirstUnused(view: View, from: nat, x: nat)
    requires NFD <= from <= INT_MAX
  {
    && x <= INT_MAX && x !in view && (forall fd | 0 <= fd < NFD && fd < x :: fd in view)
    && (x >= NFD ==> Nearest(view, from, x))
  }

  // No unused descriptor above the array comes sooner.
  ghost predicate Nearest(view: View, from: nat, x: nat)
    requires NFD <= from <= INT_MAX && NFD <= x <= INT_MAX
  {
    forall g | NFD <= g <= INT_MAX && g !in view :: Distance(from, x) <= Distance(from, g)
  }

  function Following(fd: nat): (r: nat) {
    if fd == INT_MAX then NFD else fd + 1
  }

  // Everything before the descriptor after a busy one is busy.
  lemma FollowingIsNear(view: View, from: nat, fd: nat, g: nat)
    requires NFD <= g <= INT_MAX && g !in view
    requires NFD <= from <= INT_MAX && NFD <= fd <= INT_MAX && fd in view
    requires Nearest(view, from, fd)
    ensures Nearest(view, from, Following(fd)) && Distance(Following(fd), g) < Distance(fd, g)
  {
  }

  // The port is open and counts its descriptors.
  ghost predicate Counted(view: View, p: Port)
    reads p
  {
    p.refs == |Fds(view, p)| && !p.closed
  }

  class FdTable {
    const fdmap: array<Port?>
    var fdhash: H.Table?<Port>
    var fdnext: nat
    ghost var view: View   // which port each open descriptor has
    ghost var frame: set<object>   // the objects of the hash

    ghost predicate HashOk()
      reads this, frame
    {
      if fdhash == null then frame == {}
      else
        && fdhash in frame && fdhash.heads in frame && frame == {fdhash, fdhash.heads} + fdhash.allNodes
        && fdhash.Valid() && fdhash.heads.Length == NFD && ListsOk(fdhash.lists)
    }

    ghost function High(fd: nat): (r: Option<Port>)
      requires fdhash != null ==> |fdhash.lists| == NFD
      reads this, fdhash
    {
      if fdhash == null then None else ListsFind(fdhash.lists, fd)
    }

    // The array and the hash together are the map.
    ghost predicate ViewOk()
      reads this, fdmap, fdhash, frame
    {
      && fdmap.Length == NFD
      && HashOk()
      && NFD <= fdnext <= INT_MAX
      && (forall fd | 0 <= fd < NFD :: fdmap[fd] == if fd in view then view[fd] else null)
      && (forall fd: nat | NFD <= fd :: High(fd) == if fd in view then Some(view[fd]) else None)
      && (forall fd | fd in view :: fd <= INT_MAX)
    }

    // Every port in use is open and counts its descriptors.
    ghost predicate RefsOk()
      reads this, view.Values
    {
      forall p {:trigger Counted(view, p)} | p in view.Values :: Counted(view, p)
    }

    ghost predicate Valid()
      reads this, fdmap, fdhash, frame, view.Values
    {
      ViewOk() && RefsOk()
    }

    constructor ()
      ensures Valid() && fresh(fdmap) && view == map[] && fdhash == null && frame == {}
    {
      fdmap := new Port?[NFD](_ => null);
      fdhash := null;
      fdnext := NFD;
      view := map[];
      frame := {};
    }

    // __port
    method Lookup(fd: nat) returns (p: Port?)
      requires ViewOk()
      ensures p == if fd in view then view[fd] else null
    {
      if fd < NFD {
        return fdmap[fd];
      }
      if fdhash == null {
        assert High(fd) == None;
        return null;
      }
      var r := fdhash.Lookup(fd);
      assert High(fd) == r;
      return match r case None => null case Some(q) => q;
    }

    // setfd, for an unused descriptor
    method SetFd(fd: nat, p: Port)
      requires ViewOk() && fd !in view && fd <= INT_MAX
      modifies this`fdhash, this`view, this`frame, fdmap, frame
      ensures ViewOk() && view == old(view)[fd := p]
      ensures fresh(frame - old(frame))
    {
      if fd >= NFD {
        if fdhash == null {
          fdhash := new H.Table<Port>(NFD);
          assert forall b | 0 <= b < NFD :: fdhash.lists[b] == [];
        }
        assert High(fd) == None;
        ListsInsert(fdhash.lists, fd, p);
        fdhash.Insert(fd, p);
        frame := {fdhash, fdhash.heads} + fdhash.allNodes;
      } else {
        fdmap[fd] := p;
      }
      view := view[fd := p];
    }

    // The first half of close: the descriptor's slot is emptied.
    method ClearFd(fd: nat)
      requires ViewOk() && fd in view
      modifies this`view, fdmap, frame
      ensures ViewOk() && view == old(view) - {fd}
      ensures fdhash == old(fdhash)
    {
      if fd < NFD {
        fdmap[fd] := null;
      } else {
        assert High(fd) == Some(view[fd]);
        ListsDelete(fdhash.lists, fd);
        var _ := fdhash.Delete(fd);
      }
      view := view - {fd};
    }

    // INC: an int that overflows becomes negative, and starts again at NFD
    method Increment()
      requires ViewOk()
      modifies this`fdnext
      ensures ViewOk() && fdnext == Following(old(fdnext)) && forall fd: nat :: High(fd) == old(High(fd))
    {
      fdnext := if fdnext + 1 > INT_MAX then NFD else fdnext + 1;
    }

    // allocfd: the lowest free descriptor of the array if there is one
    method AllocFd() returns (x: nat)
      requires ViewOk() && |view| < INT_MAX - NFD
      modifies this`fdnext
      ensures ViewOk() && FirstUnused(view, old(fdnext), x)
      ensures fdnext == if x < NFD then old(fdnext) else Following(x)
    {
      x := 0;
      while x < NFD && fdmap[x] != null
        invariant x <= NFD && forall fd | 0 <= fd < x :: fd in view
      {
        x := x + 1;
      }
      if x >= NFD {
        x := HighFd();
      }
    }

    // allocfd's search above the array.
    method HighFd() returns (x: nat)
      requires ViewOk() && |view| < INT_MAX - NFD
      modifies this`fdnext
      ensures ViewOk() && x !in view && NFD <= x <= INT_MAX && fdnext == Following(x)
      ensures Nearest(view, old(fdnext), x)
    {
      if fdhash != null {
        SkipBusy();
      }
      assert High(fdnext) == None;
      x := fdnext;
      Increment();
    }

    // The loop that moves fdnext past descriptors in use.
    method SkipBusy()
      requires ViewOk() && |view| < INT_MAX - NFD && fdhash != null
      modifies this`fdnext
      ensures ViewOk() && fdhash != null && High(fdnext) == None
      ensures Nearest(view, old(fdnext), fdnext)
    {
      ghost var g := UnusedExists(view.Keys, NFD, INT_MAX - NFD + 1);
      assert High(g) == None;
      var busy := fdhash.Lookup(fdnext);
      while busy.Some?
        invariant ViewOk() && fdhash != null && busy == High(fdnext) && High(g) == None
        invariant Nearest(view, old(fdnext), fdnext)
        decreases Distance(fdnext, g)
      {
        FollowingIsNear(view, old(fdnext), fdnext, g);
        Increment();
        busy := fdhash.Lookup(fdnext);
      }
    }

    // ---- The calls ----

    // __do_open: the position starts at zero, but is left alone for a port of type "null"
    method DoOpen(port: Port)
      requires Valid()
      modifies port`pos
      ensures Valid() && port.pos == if port.isNull then old(port.pos) else 0
    {
      if port.isNull {
        return;
      }
      port.pos := 0;
      forall p | p in view.Values ensures Counted(view, p) {
        assert old(Counted(view, p));
      }
    }

    // __fd_alloc; the memory for the port is not cleared
    method FdAlloc(number: long, isNull: bool) returns (x: nat)
      requires Valid() && |view| < INT_MAX - NFD
      modifies this, fdmap, frame
      ensures Valid() && FirstUnused(old(view), old(fdnext), x)
      ensures fdnext == if x < NFD then old(fdnext) else Following(x)
      ensures x in view && fresh(view[x]) && view == old(view)[x := view[x]]
      ensures view[x].number == number && view[x].isNull == isNull && (!isNull ==> view[x].pos == 0)
    {
      var garbage: ulong := *;
      var port := new Port(number, garbage, isNull);
      x := AllocFd();
      Install(x, port);
      DoOpen(port);
    }

    // The first descriptor of a new port.
    method Install(x: nat, port: Port)
      requires Valid() && x !in view && x <= INT_MAX
      requires port !in view.Values && port.refs == 1 && !port.closed
      modifies this`fdhash, this`view, this`frame, fdmap, frame
      ensures Valid() && view == old(view)[x := port]
      ensures fresh(frame - old(frame))
    {
      AfterAdd(view, x, port);
      ghost var was := view;
      SetFd(x, port);
      forall p | p in view.Values ensures Counted(view, p) {
        assert p != port ==> p in was.Values && old(Counted(was, p));
      }
    }

    // dup: -1 for a descriptor that is not open
    method Dup(fd: nat) returns (fdnew: int)
      requires Valid() && |view| < INT_MAX - NFD
      modifies this, fdmap, frame, view.Values`refs
      ensures Valid()
      ensures fd !in old(view) ==> fdnew == -1 && view == old(view) && fdnext == old(fdnext)
      ensures fd in old(view) ==>
                && fdnew >= 0 && FirstUnused(old(view), old(fdnext), fdnew)
                && fdnext == (if fdnew < NFD then old(fdnext) else Following(fdnew))
                && view == old(view)[fdnew := old(view)[fd]]
    {
      var port := Lookup(fd);
      if port == null {
        return -1;
      }
      var x := AllocFd();
      fdnew := x;
      Attach(x, port);
    }

    // Another descriptor for a port that is open.
    method Attach(x: nat, port: Port)
      requires Valid() && x !in view && x <= INT_MAX && port in view.Values
      modifies this`fdhash, this`view, this`frame, fdmap, frame, port`refs
      ensures Valid() && view == old(view)[x := port]
      ensures fresh(frame - old(frame))
    {
      assert Counted(view, port);
      AfterAdd(view, x, port);
      ghost var was := view;
      SetFd(x, port);
      AddRef(port, was);
    }

    // The port has gained a descriptor, and counts it.
    method AddRef(port: Port, ghost was: View)
      requires ViewOk() && (forall p {:trigger Counted(was, p)} | p in was.Values :: Counted(was, p))
      requires port in was.Values && |Fds(view, port)| == |Fds(was, port)| + 1
      requires forall q | q != port && q in view.Values :: q in was.Values && |Fds(view, q)| == |Fds(was, q)|
      modifies port`refs
      ensures Valid()
    {
      assert Counted(was, port);
      port.refs := port.refs + 1;
      forall p | p in view.Values ensures Counted(view, p) {
        assert p != port ==> old(Counted(was, p));
      }
    }

    // close: -1 for a descriptor that is not open; with its last descriptor the port is closed,
    // and the result is that of its close routine
    method Close(fd: nat) returns (r: int)
      requires Valid()
      modifies this`view, fdmap, frame, view.Values`refs, view.Values`closed
      ensures Valid() && view == old(view) - {fd}
      ensures fd !in old(view) ==> r == -1
      ensures fd in old(view) ==>
                var port := old(view)[fd];
                r == if |Fds(old(view), port)| > 1 || port.isNull then 0 else port.answer
      ensures fdhash == old(fdhash)
      ensures forall p | p in old(view.Values) :: p.closed <==> p !in view.Values
    {
      var port := Lookup(fd);
      if port == null {
        assert view - {fd} == view;
        assert forall p | p in view.Values :: Counted(view, p);
        return -1;
      }
      AfterRemove(view, fd);
      ghost var was := view;
      assert Counted(was, port);
      ClearFd(fd);
      r := Release(port, was);
    }

    // The second half of close: the port loses a reference, and is closed if that was
    // the last.
    method Release(port: Port, ghost was: View) returns (r: int)
      requires ViewOk() && (forall p | p in was.Values :: Counted(was, p))
      requires port in was.Values && |Fds(view, port)| == |Fds(was, port)| - 1
      requires port in view.Values <==> |Fds(view, port)| > 0
      requires forall q | q != port && q in was.Values :: q in view.Values
      requires forall q | q != port && q in view.Values :: q in was.Values && |Fds(view, q)| == |Fds(was, q)|
      modifies port`refs, port`closed
      ensures Valid() && r == if |Fds(view, port)| > 0 || port.isNull then 0 else port.answer
      ensures forall p | p in was.Values :: p.closed <==> p !in view.Values
    {
      assert Counted(was, port);
      port.refs := port.refs - 1;
      forall p | p in view.Values && p != port ensures Counted(view, p) {
        assert old(Counted(was, p));
      }
      forall p | p in was.Values && p != port ensures p in view.Values && !p.closed {
        assert old(Counted(was, p));
      }
      if port.refs > 0 {
        return 0;
      }
      r := port.CloseResult();
      port.closed := true;
    }

    // The last two lines of dup2: the port gets newfd.
    method Redirect(newfd: nat, port: Port)
      requires Valid() && newfd !in view && newfd <= INT_MAX
      requires port !in view.Values ==> port.closed
      modifies this`fdhash, this`view, this`frame, fdmap, frame, port`refs
      ensures view == old(view)[newfd := port] && (Valid() <==> port in old(view.Values))
      ensures old(view.Values) <= view.Values
    {
      AfterAdd(view, newfd, port);
      ghost var was := view;
      assert port in view.Values ==> Counted(view, port);
      SetFd(newfd, port);
      port.refs := port.refs + 1;
      assert newfd in view && port in view.Values;
      forall p | p in was.Values ensures p in view.Values {
        var g :| g in was && was[g] == p;
        assert g in view && view[g] == p;
      }
      assert port in was.Values <==> Counted(view, port);
      forall p | p in view.Values && p != port ensures Counted(view, p) {
        assert p in was.Values && old(Counted(was, p));
      }
    }

    // dup2.  It closes newfd first, so duplicating a descriptor onto itself leaves a valid
    // table only if its port has another descriptor; otherwise a closed port is in use.
    method Dup2(oldfd: nat, newfd: nat) returns (r: int)
      requires Valid() && newfd <= INT_MAX
      modifies this`fdhash, this`view, this`frame, fdmap, frame, view.Values`refs, view.Values`closed
      ensures oldfd !in old(view) ==> r == -1 && view == old(view) && Valid()
      ensures oldfd in old(view) ==> r == 0 && view == old(view)[newfd := old(view)[oldfd]]
      ensures oldfd in old(view) ==> (Valid() <==> oldfd != newfd || |Fds(old(view), old(view)[oldfd])| > 1)
      ensures forall p | p in old(view.Values) && p !in view.Values :: p.closed
    {
      var port := Lookup(oldfd);
      if port == null {
        return -1;
      }
      MakeRoom(newfd, port);
      ghost var mid := view;
      ReplaceFd(old(view), newfd, port);
      Redirect(newfd, port);
      assert forall p | p in old(view.Values) && p !in mid.Values :: p.closed;
      assert oldfd != newfd ==> oldfd in view && view[oldfd] == port;
      r := 0;
    }

    // The middle of dup2: newfd is closed if it is open.
    method MakeRoom(newfd: nat, port: Port)
      requires Valid() && port in view.Values
      modifies this`view, fdmap, frame, view.Values`refs, view.Values`closed
      ensures Valid() && view == old(view) - {newfd}
      ensures fdhash == old(fdhash)
      ensures forall p | p in old(view.Values) :: p.closed <==> p !in view.Values
      ensures port in view.Values <==> (newfd !in old(view) || port != old(view)[newfd] || |Fds(old(view), port)| > 1)
    {
      var busy := Lookup(newfd);
      assert Counted(view, port);
      if busy != null {
        AfterRemove(view, newfd);
        var _ := Close(newfd);
      } else {
        assert view - {newfd} == view;
        assert forall p | p in view.Values :: Counted(view, p);
      }
    }
  }
}
