/**
core/ns.c: cloning, unsharing, joining and leaving namespaces. Every operation conserves
references, also when an allocation fails half way.
*/
module Namespaces {
  import opened Basics
  import opened NsRefs

  // --------------------------------------------------------------- what is live

  /** A namespace that nothing refers to is gone. */
  lemma Unreferenced(s: State, hold: multiset<nat>, phold: multiset<nat>, x: nat)
    requires Conserved(s, hold, phold) && x >= FIRST
    ensures x in s.spaces <==> Refs(s, x) != {} || hold[x] > 0
  {
    assert Counted(s, hold, x);
    if Refs(s, x) == {} {
      assert |Refs(s, x)| == 0;
    } else {
      var r :| r in Refs(s, x);
      Without(Refs(s, x), r);
    }
  }

  /** Every slot of a proxy names an initial or a live namespace. */
  lemma SlotLive(s: State, hold: multiset<nat>, phold: multiset<nat>, q: nat, i: nat)
    requires Conserved(s, hold, phold) && q in s.proxies && i < 9
    ensures |s.proxies[q].ns| == 9 && (s.proxies[q].ns[i] in s.spaces || s.proxies[q].ns[i] < FIRST)
  {
    var ns := s.proxies[q].ns;
    var j := if Counts(ns, i) then i else PID;
    assert Held(q, j) in HeldRefs(s.proxies, ns[j]);
    if ns[j] >= FIRST {
      Unreferenced(s, hold, phold, ns[j]);
    }
  }

  /** Parents never change. */
  ghost predicate SameParents(a: map<nat, Space>, b: map<nat, Space>) {
    forall x {:trigger a[x]} {:trigger b[x]} :: x in a && x in b ==> a[x].parent == b[x].parent
  }

  ghost predicate Below(s: State, n: nat) {
    (forall x :: x in s.spaces ==> x < n) && (forall q :: q in s.proxies ==> q < n)
  }

  /** A namespace that is live in one of two states with the same proxies is live in the
      other. */
  lemma {:induction false} LiveToo(s: State, t: State, x: nat, n: nat)
    requires Steady(s) && Steady(t) && s.proxies == t.proxies && SameParents(s.spaces, t.spaces) && Below(s, n)
    requires Below(t, n)
    requires x in s.spaces
    ensures x in t.spaces
    decreases n - x
  {
    Unreferenced(s, multiset{}, multiset{}, x);
    var r :| r in Refs(s, x);
    if r in ChildRefs(s.spaces, x) {
      LiveToo(s, t, r.y, n);
      assert s.spaces[r.y].parent == t.spaces[r.y].parent;
      assert r in ChildRefs(t.spaces, x);
    }
    assert r in Refs(t, x);
    Unreferenced(t, multiset{}, multiset{}, x);
  }

  /** Steady states with the same proxies have the same namespaces with the same counts:
      nothing is lost or left behind. */
  lemma Determined(s: State, t: State, n: nat)
    requires Steady(s) && Steady(t) && s.proxies == t.proxies && SameParents(s.spaces, t.spaces) && Below(s, n)
    requires Below(t, n)
    ensures s.spaces == t.spaces
  {
    forall x
      ensures x in s.spaces <==> x in t.spaces
    {
      if x in s.spaces { LiveToo(s, t, x, n); }
      if x in t.spaces { LiveToo(t, s, x, n); }
    }
    forall x | x in s.spaces
      ensures s.spaces[x] == t.spaces[x]
    {
      assert s.spaces[x].parent == t.spaces[x].parent;
      SameChildren(s.spaces, t.spaces, x);
      assert Counted(s, multiset{}, x) && Counted(t, multiset{}, x);
    }
  }

  lemma SameChildren(a: map<nat, Space>, b: map<nat, Space>, x: nat)
    requires a.Keys == b.Keys && SameParents(a, b)
    ensures ChildRefs(a, x) == ChildRefs(b, x)
  {
    forall r: Ref
      ensures r in ChildRefs(a, x) <==> r in ChildRefs(b, x)
    {
      if r.Child? {
        ChildOf(a, r.y, x);
        ChildOf(b, r.y, x);
      }
    }
  }

  // ------------------------------------------------------------ slot arithmetic

  lemma BagSet(ns: seq<nat>, i: nat, x: nat)
    requires |ns| == 9 && i < KIDS && i != PID
    ensures multiset{ns[i]} <= Bag(ns) && Bag(ns[i := x]) == Bag(ns) - multiset{ns[i]} + multiset{x}
  {
    var a, b := ns[..KIDS], ns[i := x][..KIDS];
    assert a == a[..i] + [a[i]] + a[i + 1..];
    assert b == a[..i] + [x] + a[i + 1..];
  }

  /** The reference that the KIDS slot holds of its own. */
  function KidsBag(ns: seq<nat>): multiset<nat> {
    if |ns| == 9 && ns[KIDS] != ns[PID] then multiset{ns[KIDS]} else multiset{}
  }

  lemma BagPids(ns: seq<nat>, pid: nat, kids: nat)
    requires |ns| == 9
    ensures var ns' := ns[PID := pid][KIDS := kids];
            multiset{ns[PID]} + KidsBag(ns) <= Bag(ns) &&
            Bag(ns') == Bag(ns) - multiset{ns[PID]} - KidsBag(ns) + multiset{pid} + KidsBag(ns')
  {
    var a, b := ns[..KIDS], ns[PID := pid][KIDS := kids][..KIDS];
    assert a == a[..PID] + [a[PID]] + a[PID + 1..];
    assert b == a[..PID] + [pid] + a[PID + 1..];
  }

  /** nsproxy_put's order: uts, ipc, mnt, pid, kids if it differs, net, user, cgroup, time. */
  function PutOrder(ns: seq<nat>): seq<nat>
    requires |ns| == 9
  {
    ns[..NET] + (if ns[KIDS] != ns[PID] then [ns[KIDS]] else []) + ns[NET..KIDS]
  }

  lemma PutOrderBag(ns: seq<nat>)
    requires |ns| == 9
    ensures multiset(PutOrder(ns)) == Bag(ns)
  {
    assert ns[..KIDS] == ns[..NET] + ns[NET..KIDS];
  }

  // --------------------------------------------------------------------- table

  /** Which namespaces a clone asks to be new: a set of slots below KIDS. */
  type Wanted = set<nat>

  class NsTable {
    var spaces: map<nat, Space>
    var proxies: map<nat, Proxy>
    var procs: map<nat, nat>
    /** The next object number, and how many allocations will still succeed. */
    var nextId: nat
    var budget: nat

    ghost function S(): State
      reads this
    {
      State(spaces, proxies, procs)
    }

    /** References are conserved, with these in transit. */
    ghost predicate Busy(hold: multiset<nat>, phold: multiset<nat>)
      reads this
    {
      Conserved(S(), hold, phold) && Below(S(), nextId) && nextId >= FIRST
    }

    ghost predicate Valid()
      reads this
    {
      Busy(multiset{}, multiset{})
    }

    constructor (budget: nat)
      ensures Valid() && procs == map[] && this.budget == budget
    {
      spaces, proxies, procs := map[], map[], map[];
      nextId := FIRST;
      this.budget := budget;
    }

    /** kmalloc. */
    method Alloc() returns (x: Option<nat>)
      modifies this`nextId, this`budget
      ensures nextId >= old(nextId) && (x.Some? ==> x.value == old(nextId) && nextId == old(nextId) + 1)
      ensures x.None? ==> nextId == old(nextId)
      ensures x.None? <==> old(budget) == 0
    {
      if budget == 0 {
        return None;
      }
      budget := budget - 1;
      nextId := nextId + 1;
      x := Some(nextId - 1);
    }

    method GetSpace(x: nat, ghost hold: multiset<nat>, ghost phold: multiset<nat>)
      requires Busy(hold, phold) && (x in spaces || x < FIRST)
      modifies this`spaces
      ensures Busy(hold + multiset{x}, phold) && SameParents(old(spaces), spaces) && spaces.Keys == old(spaces.Keys)
    {
      hide Conserved;
      GetConserved(S(), hold, phold, x);
      if x in spaces {
        spaces := spaces[x := spaces[x].(refs := spaces[x].refs + 1)];
      }
    }

    /** pid_put, user_put and the others: the last reference frees the namespace and drops
        its reference on its parent. */
    method PutSpace(x: nat, ghost hold: multiset<nat>, ghost phold: multiset<nat>)
      requires Busy(hold, phold) && x in hold
      modifies this`spaces
      ensures Busy(hold - multiset{x}, phold) && SameParents(old(spaces), spaces) && spaces.Keys <= old(spaces.Keys)
      ensures S() == Put(old(S()), x)
      decreases x
    {
      PutConserved(S(), hold, phold, x);
      if x in spaces {
        assert Formed(S());
        var n := spaces[x];
        if n.refs > 1 {
          spaces := spaces[x := n.(refs := n.refs - 1)];
        } else {
          assert Counted(S(), hold, x);
          ghost var hold' := hold - multiset{x} + (if n.parent.Some? then multiset{n.parent.value} else multiset{});
          DropConserved(S(), hold, phold, x, hold');
          spaces := spaces - {x};
          if n.parent.Some? {
            PutSpace(n.parent.value, hold', phold);
          }
        }
      }
    }

    method GetAll(xs: seq<nat>, ghost hold: multiset<nat>, ghost phold: multiset<nat>)
      requires Busy(hold, phold) && forall j :: 0 <= j < |xs| ==> xs[j] in spaces || xs[j] < FIRST
      modifies this`spaces
      ensures Busy(hold + multiset(xs), phold) && SameParents(old(spaces), spaces) && spaces.Keys == old(spaces.Keys)
    {
      var j := 0;
      assert xs[..0] == [] && hold + multiset(xs[..0]) == hold;
      while j < |xs|
        invariant j <= |xs| && Busy(hold + multiset(xs[..j]), phold)
        invariant SameParents(old(spaces), spaces) && spaces.Keys == old(spaces.Keys)
      {
        GetSpace(xs[j], hold + multiset(xs[..j]), phold);
        assert xs[..j + 1] == xs[..j] + [xs[j]];
        assert hold + multiset(xs[..j]) + multiset{xs[j]} == hold + multiset(xs[..j + 1]);
        j := j + 1;
      }
      assert xs[..j] == xs;
    }

    method PutAll(xs: seq<nat>, ghost hold: multiset<nat>, ghost phold: multiset<nat>)
      requires Busy(hold + multiset(xs), phold)
      modifies this`spaces
      ensures Busy(hold, phold) && SameParents(old(spaces), spaces) && spaces.Keys <= old(spaces.Keys)
    {
      var j := 0;
      assert xs[0..] == xs;
      while j < |xs|
        invariant j <= |xs| && Busy(hold + multiset(xs[j..]), phold)
        invariant SameParents(old(spaces), spaces) && spaces.Keys <= old(spaces.Keys)
      {
        assert xs[j..] == [xs[j]] + xs[j + 1..];
        PutSpace(xs[j], hold + multiset(xs[j..]), phold);
        assert hold + multiset(xs[j..]) - multiset{xs[j]} == hold + multiset(xs[j + 1..]);
        j := j + 1;
      }
      assert hold + multiset(xs[j..]) == hold;
    }

    // ------------------------------------------------------------------ proxies

    /** nsproxy_put. */
    method PutProxy(q: nat, ghost hold: multiset<nat>, ghost phold: multiset<nat>)
      requires Busy(hold, phold) && (q == INIT_PROXY || q in phold)
      modifies this`spaces, this`proxies
      ensures Busy(hold, if q == INIT_PROXY then phold else phold - multiset{q})
      ensures SameParents(old(spaces), spaces) && spaces.Keys <= old(spaces.Keys)
      ensures q == INIT_PROXY ==> S() == old(S())
      ensures q != INIT_PROXY ==> q in old(proxies) && proxies == OneUserLess(old(proxies), q)
    {
      hide Conserved, Bag, PutOrder;
      if q == INIT_PROXY {
        return;
      }
      HeldProxy(S(), hold, phold, q);
      var n := proxies[q];
      if n.refs > 1 {
        PutMany(S(), hold, phold, q);
        proxies := proxies[q := n.(refs := n.refs - 1)];
      } else {
        PutLast(S(), hold, phold, q);
        proxies := proxies - {q};
        PutAll(PutOrder(n.ns), hold, phold - multiset{q});
      }
    }

    /** The slots of a proxy; the initial one holds the initial namespaces. */
    function SlotsAt(q: nat): seq<nat>
      reads this
      requires q == INIT_PROXY || q in proxies
    {
      if q == INIT_PROXY then INIT_SLOTS else proxies[q].ns
    }

    /** nsproxy_dup. */
    method DupProxy(src: nat, ghost hold: multiset<nat>, ghost phold: multiset<nat>) returns (r: Option<nat>)
      requires Busy(hold, phold) && (src == INIT_PROXY || src in proxies)
      modifies this`spaces, this`proxies, this`nextId, this`budget
      ensures r.None? <==> old(budget) == 0
      ensures r.None? ==> Busy(hold, phold) && S() == old(S()) && nextId == old(nextId)
      ensures r.Some? ==> r.value == old(nextId) < nextId && Busy(hold, phold + multiset{r.value})
      ensures r.Some? ==> proxies == old(proxies)[r.value := Proxy(1, old(SlotsAt(src)))] && |old(SlotsAt(src))| == 9
      ensures SameParents(old(spaces), spaces) && spaces.Keys == old(spaces.Keys)
    {
      hide Conserved, Bag, PutOrder;
      r := Alloc();
      if r.None? {
        return;
      }
      hide SameParents;
      var q := r.value;
      var ns := SlotsAt(src);
      SourceLive(S(), hold, phold, src, ns);
      GetAll(PutOrder(ns), hold, phold);
      DupStored(S(), hold, phold, q, ns);
      proxies := proxies[q := Proxy(1, ns)];
    }

    // ------------------------------------------------------- making slots unique

    /** A new namespace of the caller's, with a reference in transit on its parent. */
    method NewSpace(parent: Option<nat>, ghost hold: multiset<nat>, ghost phold: multiset<nat>) returns (r: Option<nat>)
      requires Busy(hold, phold) && (parent.Some? ==> parent.value in hold && parent.value < nextId)
      modifies this`spaces, this`nextId, this`budget
      ensures r.None? <==> old(budget) == 0
      ensures r.None? ==> Busy(hold, phold) && spaces == old(spaces) && nextId == old(nextId)
      ensures r.Some? ==> r.value == old(nextId) < nextId && FIRST <= r.value && r.value in spaces
      ensures r.Some? ==> Busy(hold + multiset{r.value} - (if parent.Some? then multiset{parent.value}
                                                           else multiset{}), phold)
      ensures SameParents(old(spaces), spaces) && (r.Some? ==> spaces.Keys == old(spaces.Keys) + {r.value})
      ensures r.Some? ==> ChildAt(spaces, r.value, parent)
    {
      r := Alloc();
      if r.Some? {
        Unreferenced(S(), hold, phold, r.value);
        NewConserved(S(), hold, phold, r.value, parent);
        hide Conserved;
        spaces := spaces[r.value := Space(1, parent)];
      }
    }

    /** A new namespace without parent in slot i. */
    method NewPlain(q: nat, i: nat, ghost hold: multiset<nat>, ghost phold: multiset<nat>) returns (ok: bool)
      requires Busy(hold, phold) && q in proxies && i < KIDS && i != PID
      modifies this`spaces, this`proxies, this`nextId, this`budget
      ensures Busy(hold, phold) && Evolved(old(spaces), old(nextId), spaces) && nextId >= old(nextId)
      ensures !ok ==> proxies == old(proxies)
      ensures ok ==> |old(proxies[q].ns)| == 9 && proxies == WithSlots(old(proxies), q,
                old(proxies[q].ns)[i := old(nextId)])
      ensures ok ==> ChildAt(spaces, old(nextId), None)
    {
      hide Conserved, Bag, SameParents, Evolved;
      ghost var spaces0, next0 := spaces, nextId;
      Shape(S(), hold, phold, q);
      var ns := proxies[q].ns;
      var r := NewSpace(None, hold, phold);
      if r.None? {
        EvolvedSelf(spaces0, next0, spaces);
        return false;
      }
      ghost var spaces1 := spaces;
      SlotTraded(S(), hold, phold, q, i, r.value);
      proxies := WithSlots(proxies, q, ns[i := r.value]);
      PutSpace(ns[i], hold + multiset{ns[i]}, phold);
      BackAgain(hold, multiset{ns[i]});
      NewThenPut(spaces0, next0, spaces1, spaces);
      SlotChild(S(), hold, phold, q, i, spaces1, None);
      ok := true;
    }

    /** A new user namespace, child of the one it replaces. */
    method NewUser(q: nat, ghost hold: multiset<nat>, ghost phold: multiset<nat>) returns (ok: bool)
      requires Busy(hold, phold) && q in proxies
      modifies this`spaces, this`proxies, this`nextId, this`budget
      ensures Busy(hold, phold) && Evolved(old(spaces), old(nextId), spaces) && nextId >= old(nextId)
      ensures !ok ==> proxies == old(proxies)
      ensures ok ==> |old(proxies[q].ns)| == 9 && proxies == WithSlots(old(proxies), q,
                old(proxies[q].ns)[USER := old(nextId)])
      ensures ok ==> ChildAt(spaces, old(nextId), Some(old(proxies[q].ns)[USER]))
    {
      hide Conserved, Bag;
      if budget == 0 {
        return false;
      }
      ghost var spaces0 := spaces;
      Shape(S(), hold, phold, q);
      SlotLive(S(), hold, phold, q, USER);
      var ns := proxies[q].ns;
      var u := ns[USER];
      GetSpace(u, hold, phold);
      ghost var spaces1 := spaces;
      var r := NewSpace(Some(u), hold + multiset{u}, phold);
      ghost var spaces2 := spaces;
      assert hold + multiset{u} + multiset{r.value} - multiset{u} == hold + multiset{r.value} - multiset{};
      SlotTraded(S(), hold, phold, q, USER, r.value);
      proxies := WithSlots(proxies, q, ns[USER := r.value]);
      PutSpace(u, hold + multiset{u}, phold);
      assert hold + multiset{u} - multiset{u} == hold;
      SlotChild(S(), hold, phold, q, USER, spaces2, Some(u));
      ParentsTrans(spaces0, spaces1, spaces2);
      ParentsTrans(spaces0, spaces2, spaces);
      ok := true;
    }

    /** A new pid namespace, child of the current one, for the proxy and its children. */
    method NewPid(q: nat, ghost hold: multiset<nat>, ghost phold: multiset<nat>) returns (ok: bool)
      requires Busy(hold, phold) && q in proxies
      modifies this`spaces, this`proxies, this`nextId, this`budget
      ensures Busy(hold, phold) && Evolved(old(spaces), old(nextId), spaces) && nextId >= old(nextId)
      ensures !ok ==> proxies == old(proxies)
      ensures ok ==> |old(proxies[q].ns)| == 9 && proxies == WithSlots(old(proxies), q,
                old(proxies[q].ns)[PID := old(nextId)][KIDS := old(nextId)])
      ensures ok ==> ChildAt(spaces, old(nextId), Some(old(proxies[q].ns)[PID]))
    {
      hide Conserved, Bag, KidsBag;
      if budget == 0 {
        return false;
      }
      ghost var spaces0 := spaces;
      Shape(S(), hold, phold, q);
      SlotLive(S(), hold, phold, q, PID);
      var ns := proxies[q].ns;
      var pid, kids := ns[PID], ns[KIDS];
      GetSpace(pid, hold, phold);
      ghost var spaces1 := spaces;
      var r := NewSpace(Some(pid), hold + multiset{pid}, phold);
      ghost var spaces2 := spaces;
      assert hold + multiset{pid} + multiset{r.value} - multiset{pid} == hold + multiset{r.value};
      PidsTraded(S(), hold, phold, q, r.value);
      proxies := WithSlots(proxies, q, ns[PID := r.value][KIDS := r.value]);
      ParentsTrans(spaces0, spaces1, spaces2);
      PutPids(pid, kids, hold, phold);
      SlotChild(S(), hold, phold, q, PID, spaces2, Some(pid));
      ParentsTrans(spaces0, spaces2, spaces);
      ok := true;
    }

    /** Drop a pid namespace and, if it is another one, that of the children. */
    method PutPids(pid: nat, kids: nat, ghost hold: multiset<nat>, ghost phold: multiset<nat>)
      requires Busy(hold + multiset{pid} + (if kids != pid then multiset{kids} else multiset{}), phold)
      modifies this`spaces
      ensures Busy(hold, phold) && SameParents(old(spaces), spaces) && spaces.Keys <= old(spaces.Keys)
    {
      hide Conserved;
      ghost var spaces0 := spaces;
      if kids != pid {
        PutSpace(kids, hold + multiset{pid} + multiset{kids}, phold);
      }
      ghost var spaces1 := spaces;
      BackAgain(hold + multiset{pid}, multiset{kids});
      assert hold + multiset{pid} == hold + multiset{pid} + multiset{};
      PutSpace(pid, hold + multiset{pid}, phold);
      BackAgain(hold, multiset{pid});
      ParentsTrans(spaces0, spaces1, spaces);
    }

    /** A new namespace of type o, whatever the type. */
    method NewAt(q: nat, o: nat, ghost hold: multiset<nat>, ghost phold: multiset<nat>) returns (ok: bool)
      requires Busy(hold, phold) && q in proxies && o < KIDS
      modifies this`spaces, this`proxies, this`nextId, this`budget
      ensures Busy(hold, phold) && Evolved(old(spaces), old(nextId), spaces) && nextId >= old(nextId)
      ensures !ok ==> proxies == old(proxies)
      ensures ok ==> |old(proxies[q].ns)| == 9 &&
                     proxies == WithSlots(old(proxies), q, if o == PID
                                          then old(proxies[q].ns)[PID := old(nextId)][KIDS := old(nextId)]
                                          else old(proxies[q].ns)[o := old(nextId)])
      ensures ok ==> ChildAt(spaces, old(nextId), if o == PID || o == USER then Some(old(proxies[q].ns)[o]) else None)
    {
      hide Conserved, Evolved, SameParents;
      if o == PID {
        ok := NewPid(q, hold, phold);
      } else if o == USER {
        ok := NewUser(q, hold, phold);
      } else {
        ok := NewPlain(q, o, hold, phold);
      }
    }

    /** ns_make_unique: uts, ipc, mnt, net, cgroup, time, user, pid, in this order; on failure
        some of them are already new. */
    method MakeUnique(q: nat, flags: Wanted, ghost hold: multiset<nat>, ghost phold: multiset<nat>) returns (ok: bool)
      requires Busy(hold, phold) && q in proxies
      modifies this`spaces, this`proxies, this`nextId, this`budget
      ensures Busy(hold, phold) && Evolved(old(spaces), old(nextId), spaces) && nextId >= old(nextId)
      ensures q in proxies && proxies == old(proxies)[q := proxies[q]] && proxies[q].refs == old(proxies[q].refs)
      ensures ok ==> Made(old(proxies[q].ns), proxies[q].ns, flags, old(nextId))
      ensures ok ==> Born(spaces, old(proxies[q].ns), proxies[q].ns, flags)
    {
      assert SameParents(spaces, spaces);
      hide Conserved, SameParents;
      Shape(S(), hold, phold, q);
      ghost var spaces0, proxies0, next0 := spaces, proxies, nextId;
      var order := ORDER;
      var j := 0;
      while j < 8
        invariant j <= 8 && Busy(hold, phold) && Evolved(spaces0, next0, spaces) && nextId >= next0
        invariant q in proxies && proxies == proxies0[q := proxies[q]] && proxies[q].refs == proxies0[q].refs
        invariant Made(proxies0[q].ns, proxies[q].ns, flags * First(order, j), next0)
        invariant Born(spaces, proxies0[q].ns, proxies[q].ns, flags * First(order, j))
      {
        if order[j] in flags {
          ghost var spaces1, next1, ns1 := spaces, nextId, proxies[q].ns;
          SpacesRange(S(), hold, phold, nextId);
          NotBefore(j);
          ok := NewAt(q, order[j], hold, phold);
          EvolvedTrans(spaces0, next0, spaces1, next1, spaces);
          if !ok {
            return;
          }
          BornMore(S(), hold, phold, q, proxies0[q].ns, ns1, flags, j, next0, next1, spaces1);
          MadeMore(proxies0[q].ns, ns1, proxies[q].ns, flags, order, j, next0, next1);
        } else {
          MadeSkip(proxies0[q].ns, proxies[q].ns, flags, order, j, next0);
          assert flags * First(order, j + 1) == flags * First(order, j);
        }
        j := j + 1;
      }
      MadeAll(proxies0[q].ns, proxies[q].ns, flags, next0);
      BornAll(spaces, proxies0[q].ns, proxies[q].ns, flags);
      ok := true;
    }

    // --------------------------------------------------------------- operations

    /** ns_of: the process's proxy, or the initial one. */
    function ProxyFor(p: nat): nat
      reads this
    {
      if p in procs then procs[p] else INIT_PROXY
    }

    /** nsproxy_put(p->nsproxy); p->nsproxy = q, with q in transit. */
    method Adopt(p: nat, q: nat)
      requires Busy(multiset{}, multiset{q}) && q != INIT_PROXY
      modifies this`spaces, this`proxies, this`procs
      ensures Valid() && procs == old(procs)[p := q]
      ensures SameParents(old(spaces), spaces) && spaces.Keys <= old(spaces.Keys) && Kept(old(proxies), proxies)
      ensures q in old(proxies) && q in proxies && proxies[q].ns == old(proxies[q].ns)
    {
      hide Conserved;
      HeldProxy(S(), multiset{}, multiset{q}, q);
      PointAt(S(), p, q);
      ghost var was := ProcIn(S(), p);
      var o := ProxyFor(p);
      procs := procs[p := q];
      UsedProxy(S(), multiset{}, Owing(was), p);
      PutProxy(o, multiset{}, Owing(was));
      Settled(was, o);
      UsedProxy(S(), multiset{}, multiset{}, p);
    }

    /** nsproxy_put of a duplicate that was not used: everything is as before it was made. */
    method DropFresh(q: nat, ghost s0: State, ghost next0: nat)
      requires Busy(multiset{}, multiset{q}) && Steady(s0) && Below(s0, next0) && next0 <= nextId && q !in s0.proxies
      requires q != INIT_PROXY && q in proxies && proxies == s0.proxies[q := proxies[q]] && proxies[q].refs == 1
      requires procs == s0.procs
      requires Evolved(s0.spaces, next0, spaces)
      modifies this`spaces, this`proxies
      ensures Valid() && S() == s0
    {
      hide Conserved;
      ghost var spaces1 := spaces;
      PutProxy(q, multiset{}, multiset{q});
      assert multiset{q} - multiset{q} == multiset{};
      assert proxies == s0.proxies;
      ParentsTrans(s0.spaces, spaces1, spaces);
      Determined(s0, S(), nextId);
    }

    /** ns_clone_process: the child gets a copy of the parent's proxy (its own if there is no
        parent) with the wanted namespaces new. On failure nothing has changed. */
    method Clone(parent: Option<nat>, child: nat, flags: Wanted) returns (rc: int, ghost q: nat)
      requires Valid()
      modifies this
      ensures Valid() && (rc == 0 || rc == -1) && nextId >= old(nextId)
      ensures rc == -1 || flags == {} ==> S() == old(S())
      ensures flags == {} ==> rc == 0
      ensures rc == 0 && flags != {} ==> q >= old(nextId) && q in proxies && procs == old(procs)[child := q]
      ensures rc == 0 && flags != {} ==> forall o :: o in proxies && o != q ==>
                o in old(proxies) && proxies[o].ns == old(proxies)[o].ns
      ensures rc == 0 && flags != {} ==>
                var src := old(ProxyFor(if parent.Some? then parent.value else child));
                (src == INIT_PROXY || src in old(proxies)) &&
                Made(old(SlotsAt(src)), proxies[q].ns, flags, old(nextId)) &&
                Born(spaces, old(SlotsAt(src)), proxies[q].ns, flags)
    {
      hide Conserved, Evolved;
      q := 0;
      if flags == {} {
        return 0, q;
      }
      ghost var s0, next0 := S(), nextId;
      var who := if parent.Some? then parent.value else child;
      var src := ProxyFor(who);
      if who in procs {
        UsedProxy(S(), multiset{}, multiset{}, who);
      }
      var r := DupProxy(src, multiset{}, multiset{});
      if r.None? {
        return -1, q;
      }
      q := r.value;
      assert multiset{} + multiset{q} == multiset{q};
      ghost var spaces1, next1 := spaces, nextId;
      var ok := MakeUnique(r.value, flags, multiset{}, multiset{r.value});
      DupThen(s0.spaces, next0, spaces1, next1, spaces);
      if !ok {
        DropFresh(r.value, s0, next0);
        return -1, q;
      }
      ghost var spaces2 := spaces;
      SpacesRange(S(), multiset{}, multiset{q}, nextId);
      Adopt(child, r.value);
      BornKept(S(), multiset{}, multiset{}, q, old(SlotsAt(src)), flags, spaces2);
      rc := 0;
    }

    /** pid_ns_for_children = x, with the references that takes in transit. */
    method SetKids(q: nat, x: nat, ghost phold: multiset<nat>)
      requires q in proxies && |proxies[q].ns| == 9
      requires Busy(if x != proxies[q].ns[PID] then multiset{x} else multiset{}, phold)
      modifies this`spaces, this`proxies
      ensures Busy(multiset{}, phold) && proxies == WithSlots(old(proxies), q, old(proxies[q].ns)[KIDS := x])
      ensures SameParents(old(spaces), spaces) && spaces.Keys <= old(spaces.Keys)
    {
      hide Conserved, Bag, KidsBag;
      var ns := proxies[q].ns;
      KidsTraded(S(), phold, q, x);
      proxies := WithSlots(proxies, q, ns[KIDS := x]);
      if ns[KIDS] != ns[PID] {
        PutSpace(ns[KIDS], multiset{ns[KIDS]}, phold);
        assert multiset{ns[KIDS]} - multiset{ns[KIDS]} == multiset{};
      }
    }

    /** The second half of ns_unshare: children will be born in a new pid namespace. */
    method UnshareKids(p: nat) returns (rc: int, ghost q: nat)
      requires Valid()
      modifies this
      ensures Valid() && (rc == 0 || rc == -1)
      ensures rc == -1 ==> S() == old(S())
      ensures rc == 0 ==> q >= old(nextId) && q in proxies && procs == old(procs)[p := q]
      ensures rc == 0 ==> (forall o :: o in proxies && o != q ==>
                           o in old(proxies) && proxies[o].ns == old(proxies)[o].ns)
      ensures rc == 0 ==> old(ProxyFor(p)) == INIT_PROXY || old(ProxyFor(p)) in old(proxies)
      ensures rc == 0 ==>
                |old(SlotsAt(ProxyFor(p)))| == 9 && |proxies[q].ns| == 9 && proxies[q].ns[KIDS] >= old(nextId) &&
                proxies[q].ns == old(SlotsAt(ProxyFor(p)))[KIDS := proxies[q].ns[KIDS]] &&
                ChildAt(spaces, proxies[q].ns[KIDS], Some(old(SlotsAt(ProxyFor(p)))[PID]))
      ensures SameParents(old(spaces), spaces)
    {
      hide Conserved, Evolved;
      q := 0;
      ghost var s0, next0 := S(), nextId;
      var src := ProxyFor(p);
      if p in procs {
        UsedProxy(S(), multiset{}, multiset{}, p);
      }
      var r := DupProxy(src, multiset{}, multiset{});
      if r.None? {
        return -1, q;
      }
      q := r.value;
      var f := r.value;
      assert multiset{} + multiset{f} == multiset{f};
      ghost var spaces1 := spaces;
      if budget == 0 {
        EvolvedSelf(s0.spaces, next0, spaces);
        DropFresh(f, s0, next0);
        return -1, q;
      }
      ghost var pid := proxies[f].ns[PID];
      NewKids(f);
      ghost var spaces2 := spaces;
      hide SameParents;
      Adopt(p, f);
      SlotChild(S(), multiset{}, multiset{}, f, KIDS, spaces2, Some(pid));
      ParentsTrans(spaces1, spaces2, spaces);
      ParentsTrans(s0.spaces, spaces1, spaces);
      rc := 0;
    }

    /** A new pid namespace for the children, child of the proxy's own. */
    method NewKids(f: nat)
      requires Busy(multiset{}, multiset{f}) && f in proxies && |proxies[f].ns| == 9 && budget > 0
      modifies this`spaces, this`proxies, this`nextId, this`budget
      ensures Busy(multiset{}, multiset{f}) && nextId > old(nextId)
      ensures proxies == WithSlots(old(proxies), f, old(proxies[f].ns)[KIDS := old(nextId)])
      ensures ChildAt(spaces, old(nextId), Some(old(proxies[f].ns)[PID])) && old(nextId) >= FIRST
      ensures SameParents(old(spaces), spaces) && forall x :: x in spaces ==> x in old(spaces) || x == old(nextId)
    {
      hide Conserved;
      ghost var spaces0 := spaces;
      var ns := proxies[f].ns;
      SlotLive(S(), multiset{}, multiset{f}, f, PID);
      GetSpace(ns[PID], multiset{}, multiset{f});
      ghost var spaces1 := spaces;
      var x := NewSpace(Some(ns[PID]), multiset{} + multiset{ns[PID]}, multiset{f});
      assert multiset{} + multiset{ns[PID]} + multiset{x.value} - multiset{ns[PID]} == multiset{x.value};
      ghost var spaces2 := spaces;
      ParentsTrans(spaces0, spaces1, spaces2);
      hide SameParents;
      SetKids(f, x.value, multiset{f});
      SlotChild(S(), multiset{}, multiset{f}, f, KIDS, spaces2, Some(ns[PID]));
      ParentsTrans(spaces0, spaces2, spaces);
    }

    /** ns_unshare: p moves to namespaces of its own, its own pid namespace excepted, which only
        its children leave. When the new pid namespace cannot be made, the others stay. */
    method Unshare(p: nat, flags: Wanted) returns (rc: int)
      requires Valid()
      modifies this
      ensures Valid() && (rc == 0 || rc == -1) && procs - {p} == old(procs) - {p}
      ensures flags == {} ==> rc == 0
      ensures flags == {} || (rc == -1 && procs == old(procs)) ==> S() == old(S())
      ensures rc == -1 && procs != old(procs) ==> PID in flags && flags != {PID}
      ensures flags != {} && (rc == 0 || procs != old(procs)) ==>
                p in procs && procs[p] in proxies && procs[p] >= old(nextId) &&
                (old(ProxyFor(p)) == INIT_PROXY || old(ProxyFor(p)) in old(proxies)) &&
                Unshared(old(SlotsAt(ProxyFor(p))), proxies[procs[p]].ns, if rc == 0 then flags
                         else flags - {PID}, old(nextId)) &&
                BornApart(spaces, old(SlotsAt(ProxyFor(p))), proxies[procs[p]].ns, if rc == 0 then flags
                          else flags - {PID})
      ensures forall o :: o in proxies && o < old(nextId) ==> o in old(proxies) && proxies[o].ns == old(proxies)[o].ns
    {
      hide Conserved, Made, Born, BornApart;
      if flags == {} {
        return 0;
      }
      rc := 0;
      if flags - {PID} != {} {
        ghost var q;
        rc, q := Clone(Some(p), p, flags - {PID});
        if rc != 0 {
          return;
        }
        MadeUnshared(old(SlotsAt(ProxyFor(p))), proxies[q].ns, flags - {PID}, old(nextId));
        BornUnshared(spaces, old(SlotsAt(ProxyFor(p))), proxies[q].ns, flags - {PID});
        assert PID !in flags ==> flags - {PID} == flags;
      }
      if PID in flags {
        if p in procs {
          UsedProxy(S(), multiset{}, multiset{}, p);
        }
        ghost var slots := SlotsAt(ProxyFor(p));
        ghost var spaces1 := spaces;
        SpacesRange(S(), multiset{}, multiset{}, nextId);
        ghost var q;
        rc, q := UnshareKids(p);
        if rc == 0 {
          KidsUnshared(old(SlotsAt(ProxyFor(p))), slots, proxies[q].ns, flags, old(nextId));
          KidsBorn(S(), q, old(SlotsAt(ProxyFor(p))), slots, flags, spaces1);
        }
      }
    }

    /** ns_setns_file: join the namespace of type i of process o, the one that the search by
        inode number finds; -2 when it finds none. Joining a pid namespace concerns the
        children only. */
    method Setns(p: nat, i: nat, found: Option<nat>) returns (rc: int, ghost q: nat)
      requires Valid() && i < KIDS && (found.Some? ==> found.value in procs)
      modifies this
      ensures Valid() && rc in {0, -12, -2} && (found.None? ==> rc != 0)
      ensures rc != 0 ==> S() == old(S())
      ensures rc == 0 ==> q >= old(nextId) && q in proxies && procs == old(procs)[p := q]
      ensures rc == 0 ==> (forall o :: o in proxies && o != q ==>
                           o in old(proxies) && proxies[o].ns == old(proxies)[o].ns)
      ensures rc == 0 ==> var src, from := old(ProxyFor(p)), old(ProxyFor(found.value));
                (src == INIT_PROXY || src in old(proxies)) && (from == INIT_PROXY || from in old(proxies)) &&
                |old(SlotsAt(src))| == 9 && |old(SlotsAt(from))| == 9 &&
                proxies[q].ns == old(SlotsAt(src))[(if i == PID then KIDS else i) := old(SlotsAt(from))[i]]
    {
      hide Conserved, Evolved;
      q := 0;
      ghost var s0, next0 := S(), nextId;
      var src := ProxyFor(p);
      if p in procs {
        UsedProxy(S(), multiset{}, multiset{}, p);
      }
      if found.Some? {
        UsedProxy(S(), multiset{}, multiset{}, found.value);
      }
      var r := DupProxy(src, multiset{}, multiset{});
      if r.None? {
        return -12, q;
      }
      q := r.value;
      var f := r.value;
      assert multiset{} + multiset{f} == multiset{f};
      if found.None? {
        EvolvedSelf(s0.spaces, next0, spaces);
        DropFresh(f, s0, next0);
        return -2, q;
      }
      var x := SlotsAt(procs[found.value])[i];
      JoinSlot(f, procs[found.value], i, x);
      Adopt(p, f);
      rc := 0;
    }

    /** Put namespace x, which proxy from holds in slot i, into a proxy of one's own. */
    method JoinSlot(f: nat, from: nat, i: nat, x: nat)
      requires Busy(multiset{}, multiset{f}) && f in proxies && |proxies[f].ns| == 9 && i < KIDS
      requires (from == INIT_PROXY || from in proxies) && |SlotsAt(from)| == 9 && x == SlotsAt(from)[i]
      modifies this`spaces, this`proxies
      ensures Busy(multiset{}, multiset{f})
      ensures proxies == WithSlots(old(proxies), f, old(proxies[f].ns)[(if i == PID then KIDS else i) := x])
      ensures SameParents(old(spaces), spaces) && spaces.Keys <= old(spaces.Keys)
    {
      hide Conserved;
      if from != INIT_PROXY {
        SlotLive(S(), multiset{}, multiset{f}, from, i);
      }
      var ns := proxies[f].ns;
      ghost var spaces0 := spaces;
      if i == PID {
        if x != ns[PID] {
          GetSpace(x, multiset{}, multiset{f});
          assert multiset{} + multiset{x} == multiset{x};
        }
        ghost var spaces1 := spaces;
        SetKids(f, x, multiset{f});
        ParentsTrans(spaces0, spaces1, spaces);
      } else {
        GetSpace(x, multiset{}, multiset{f});
        ghost var spaces1 := spaces;
        assert multiset{} + multiset{x} == multiset{} + multiset{x} - multiset{};
        SlotTraded(S(), multiset{}, multiset{f}, f, i, x);
        proxies := WithSlots(proxies, f, ns[i := x]);
        PutSpace(ns[i], multiset{} + multiset{ns[i]}, multiset{f});
        BackAgain(multiset{}, multiset{ns[i]});
        ParentsTrans(spaces0, spaces1, spaces);
      }
    }

    /** nsproxy_get for a new process, and its pointer. */
    method Share(child: nat, q: nat)
      requires Valid() && child !in procs && (q == INIT_PROXY || q in proxies)
      modifies this`proxies, this`procs
      ensures Valid() && procs == old(procs)[child := q]
      ensures q == INIT_PROXY ==> proxies == old(proxies)
      ensures q != INIT_PROXY ==> proxies == old(proxies)[q := old(proxies[q]).(refs := old(proxies[q].refs) + 1)]
    {
      hide Conserved;
      OneUserMore(S(), child, q);
      if q != INIT_PROXY {
        proxies := proxies[q := proxies[q].(refs := proxies[q].refs + 1)];
      }
      procs := procs[child := q];
    }

    /** ns_process_inherit: the child shares the parent's proxy, unless the parent's children
        belong into another pid namespace; then it gets a copy that lives there. Without
        memory for the copy it shares the proxy all the same. */
    method Inherit(child: nat, parent: Option<nat>)
      requires Valid() && child !in procs
      modifies this
      ensures Valid() && child in procs
      ensures parent.None? ==>
                procs == old(procs)[child := INIT_PROXY] && proxies == old(proxies) && spaces == old(spaces)
      ensures parent.Some? ==> (old(ProxyFor(parent.value)) == INIT_PROXY ||
                                old(ProxyFor(parent.value)) in old(proxies)) &&
                               |old(SlotsAt(ProxyFor(parent.value)))| == 9 && procs == old(procs)[child := procs[child]]
      ensures parent.Some? ==> var ns := old(SlotsAt(ProxyFor(parent.value)));
                               if ns[KIDS] == ns[PID] || old(budget) == 0
                               then procs[child] == old(ProxyFor(parent.value))
                               else procs[child] >= old(nextId) && procs[child] in proxies &&
                                    proxies[procs[child]].ns == ns[PID := ns[KIDS]]
    {
      hide Conserved, SameParents;
      if parent.None? {
        Share(child, INIT_PROXY);
        return;
      }
      var src := ProxyFor(parent.value);
      if parent.value in procs {
        UsedProxy(S(), multiset{}, multiset{}, parent.value);
      }
      var ns := SlotsAt(src);
      Share(child, src);
      if ns[KIDS] != ns[PID] {
        var r := DupProxy(src, multiset{}, multiset{});
        if r.Some? {
          var f := r.value;
          assert multiset{} + multiset{f} == multiset{f};
          MoveIn(f);
          Adopt(child, f);
        }
      }
    }

    /** Re-point pid_ns at pid_ns_for_children, whose reference the proxy already holds. */
    method MoveIn(f: nat)
      requires Busy(multiset{}, multiset{f}) && f in proxies && |proxies[f].ns| == 9
      requires proxies[f].ns[KIDS] != proxies[f].ns[PID]
      modifies this`spaces, this`proxies
      ensures Busy(multiset{}, multiset{f})
      ensures proxies == WithSlots(old(proxies), f, old(proxies[f].ns)[PID := old(proxies[f].ns)[KIDS]])
    {
      hide Conserved;
      var ns := proxies[f].ns;
      MovedIn(S(), multiset{f}, f);
      proxies := WithSlots(proxies, f, ns[PID := ns[KIDS]]);
      PutSpace(ns[PID], multiset{ns[PID]}, multiset{f});
      assert multiset{ns[PID]} - multiset{ns[PID]} == multiset{};
    }

    /** ns_process_exit. */
    method Exit(p: nat)
      requires Valid()
      modifies this`spaces, this`proxies, this`procs
      ensures Valid() && procs == old(procs) - {p} && Kept(old(proxies), proxies)
      ensures SameParents(old(spaces), spaces) && spaces.Keys <= old(spaces.Keys)
    {
      hide Conserved;
      PointAtNone(S(), p);
      ghost var was := ProcIn(S(), p);
      var o := ProxyFor(p);
      procs := procs - {p};
      PutProxy(o, multiset{}, Owing(was));
      Settled(was, o);
    }
  }

  lemma DupThen(a: map<nat, Space>, n: nat, b: map<nat, Space>, n': nat, c: map<nat, Space>)
    requires SameParents(a, b) && b.Keys == a.Keys && Evolved(b, n', c) && n <= n'
    ensures Evolved(a, n, c)
  {
    ParentsTrans(a, b, c);
  }

  lemma NewThenPut(a: map<nat, Space>, n: nat, b: map<nat, Space>, c: map<nat, Space>)
    requires SameParents(a, b) && b.Keys == a.Keys + {n} && SameParents(b, c) && c.Keys <= b.Keys
    ensures Evolved(a, n, c)
  {
    ParentsTrans(a, b, c);
  }

  lemma EvolvedSelf(a: map<nat, Space>, n: nat, b: map<nat, Space>)
    requires SameParents(a, b) && b.Keys == a.Keys
    ensures Evolved(a, n, b)
  {
  }

  /** The KIDS slot takes x; what it held of its own is in transit. */
  lemma KidsTraded(s: State, phold: multiset<nat>, q: nat, x: nat)
    requires q in s.proxies && |s.proxies[q].ns| == 9
    requires Conserved(s, if x != s.proxies[q].ns[PID] then multiset{x} else multiset{}, phold)
    ensures var ns := s.proxies[q].ns;
            Conserved(s.(proxies := WithSlots(s.proxies, q, ns[KIDS := x])), if ns[KIDS] != ns[PID]
                      then multiset{ns[KIDS]} else multiset{}, phold)
  {
    hide Conserved, Bag;
    var ns := s.proxies[q].ns;
    KidsBags(ns, x);
    SlotsStored(s, KidsBag(ns[KIDS := x]), phold, q, ns[KIDS := x]);
  }

  lemma KidsBags(ns: seq<nat>, x: nat)
    requires |ns| == 9
    ensures var ns' := ns[KIDS := x];
            Bag(ns') <= KidsBag(ns') + Bag(ns) && KidsBag(ns') + Bag(ns) - Bag(ns') == KidsBag(ns)
  {
    hide Bag, KidsBag;
    var ns' := ns[KIDS := x];
    BagPids(ns, ns[PID], x);
    assert ns[PID := ns[PID]][KIDS := x] == ns';
    Cancel(Bag(ns), multiset{ns[PID]}, KidsBag(ns), KidsBag(ns'));
    SwapBags(Bag(ns), KidsBag(ns), KidsBag(ns'));
  }

  lemma Cancel(bag: multiset<nat>, a: multiset<nat>, k: multiset<nat>, k': multiset<nat>)
    requires a + k <= bag
    ensures k <= bag && bag - a - k + a + k' == bag - k + k'
  {
  }

  lemma SwapBags(bag: multiset<nat>, k: multiset<nat>, k': multiset<nat>)
    requires k <= bag
    ensures bag - k + k' <= k' + bag && k' + bag - (bag - k + k') == k
  {
  }

  /** The PID slot takes what the KIDS slot held. */
  lemma MovedIn(s: State, phold: multiset<nat>, q: nat)
    requires q in s.proxies && |s.proxies[q].ns| == 9 && s.proxies[q].ns[KIDS] != s.proxies[q].ns[PID]
    requires Conserved(s, multiset{}, phold)
    ensures var ns := s.proxies[q].ns;
            Conserved(s.(proxies := WithSlots(s.proxies, q, ns[PID := ns[KIDS]])), multiset{ns[PID]}, phold)
  {
    var ns := s.proxies[q].ns;
    var ns' := ns[PID := ns[KIDS]];
    BagPids(ns, ns[KIDS], ns[KIDS]);
    assert ns[PID := ns[KIDS]][KIDS := ns[KIDS]] == ns';
    assert Bag(ns') == Bag(ns) - multiset{ns[PID]} && multiset{ns[PID]} <= Bag(ns) by {
      MoveBag(Bag(ns), multiset{ns[PID]}, multiset{ns[KIDS]});
    }
    Shrink(Bag(ns), multiset{ns[PID]});
    SlotsStored(s, multiset{}, phold, q, ns');
  }

  lemma MoveBag(bag: multiset<nat>, a: multiset<nat>, k: multiset<nat>)
    requires a + k <= bag
    ensures a <= bag && bag - a - k + k + multiset{} == bag - a
  {
  }

  lemma Shrink(bag: multiset<nat>, a: multiset<nat>)
    requires a <= bag
    ensures bag - a <= multiset{} + bag && multiset{} + bag - (bag - a) == a
  {
  }

  lemma OneUserMore(s: State, child: nat, q: nat)
    requires Steady(s) && child !in s.procs && (q == INIT_PROXY || q in s.proxies)
    ensures q == INIT_PROXY ==> Steady(s.(procs := s.procs[child := q]))
    ensures q != INIT_PROXY ==> Steady(s.(proxies := s.proxies[q := s.proxies[q].(refs := s.proxies[q].refs + 1)],
                                          procs := s.procs[child := q]))
  {
    if q == INIT_PROXY {
      SetProcConserved(s, multiset{}, multiset{}, child, Some(q));
      assert multiset{} + Owing(ProcIn(s, child)) - Owing(Some(q)) == multiset{};
    } else {
      assert CountedProxy(s, multiset{}, q);
      var n := s.proxies[q];
      SetProxyConserved(s, multiset{}, multiset{}, q, Some(n.(refs := n.refs + 1)), multiset{q});
      BackAgain(multiset{}, Bag(n.ns));
      PointAt(SetProxy(s, q, Some(n.(refs := n.refs + 1))), child, q);
    }
  }

  lemma Settled(was: Option<nat>, o: nat)
    requires o == if was.Some? then was.value else INIT_PROXY
    ensures (if o == INIT_PROXY then Owing(was) else Owing(was) - multiset{o}) == multiset{}
  {
  }

  /** Proxies that remain have the slots they had. */
  ghost predicate Kept(a: map<nat, Proxy>, b: map<nat, Proxy>) {
    forall q :: q in b ==> q in a && b[q].ns == a[q].ns
  }

  lemma PointAt(s: State, p: nat, q: nat)
    requires Conserved(s, multiset{}, multiset{q}) && q != INIT_PROXY
    ensures Conserved(s.(procs := s.procs[p := q]), multiset{}, Owing(ProcIn(s, p)))
  {
    SetProcConserved(s, multiset{}, multiset{q}, p, Some(q));
    assert multiset{q} + Owing(ProcIn(s, p)) - Owing(Some(q)) == Owing(ProcIn(s, p));
  }

  lemma PointAtNone(s: State, p: nat)
    requires Steady(s)
    ensures Conserved(s.(procs := s.procs - {p}), multiset{}, Owing(ProcIn(s, p)))
  {
    SetProcConserved(s, multiset{}, multiset{}, p, None);
    assert multiset{} + Owing(ProcIn(s, p)) - Owing(None) == Owing(ProcIn(s, p));
  }

  /** The proxy of a process is the initial one or live. */
  lemma UsedProxy(s: State, hold: multiset<nat>, phold: multiset<nat>, p: nat)
    requires Conserved(s, hold, phold) && p in s.procs
    ensures s.procs[p] == INIT_PROXY || (s.procs[p] in s.proxies && |s.proxies[s.procs[p]].ns| == 9)
  {
    var q := s.procs[p];
    assert CountedProxy(s, phold, q);
    assert p in Users(s.procs, q);
    Without(Users(s.procs, q), p);
  }

  /** The order of the tests in ns_make_unique. */
  const ORDER: seq<nat> := [UTS, IPC, MNT, NET, CGROUP, TIME, USER, PID]

  lemma NotBefore(j: nat)
    requires j < 8
    ensures |ORDER| == 8 && ORDER[j] < KIDS && ORDER[j] !in First(ORDER, j)
  {
    assert forall a, b :: 0 <= a < b < 8 ==> ORDER[a] != ORDER[b];
  }

  lemma MadeAll(ns0: seq<nat>, ns: seq<nat>, flags: Wanted, base: nat)
    requires Made(ns0, ns, flags * First(ORDER, 8), base)
    ensures Made(ns0, ns, flags, base)
  {
    assert ORDER[0] == 0 && ORDER[1] == 1 && ORDER[2] == 2 && ORDER[7] == 3 && ORDER[3] == 4 && ORDER[6] == 5 &&
        ORDER[4] == 6 && ORDER[5] == 7;
    assert forall i :: 0 <= i < 8 ==> i in First(ORDER, 8);
  }

  function First(order: seq<nat>, j: nat): set<nat> { set k | 0 <= k < j && k < |order| :: order[k] }

  /** The wanted slots are new, the others as they were; a new pid namespace is also that of
      the children. */
  ghost predicate Made(ns: seq<nat>, ns': seq<nat>, flags: Wanted, base: nat) {
    |ns| == 9 && |ns'| == 9 &&
    (forall i :: 0 <= i < KIDS ==> if i in flags then ns'[i] >= base else ns'[i] == ns[i]) &&
    (if PID in flags then ns'[KIDS] == ns'[PID] else ns'[KIDS] == ns[KIDS])
  }

  /** What unshare leaves a process with: new namespaces where wanted, but its own pid namespace
      as it was; wanting that one gives its children a new one. */
  ghost predicate Unshared(ns: seq<nat>, ns': seq<nat>, flags: Wanted, base: nat) {
    |ns| == 9 && |ns'| == 9 &&
    (forall i :: 0 <= i < KIDS ==> if i in flags && i != PID then ns'[i] >= base else ns'[i] == ns[i]) &&
    (if PID in flags then ns'[KIDS] >= base else ns'[KIDS] == ns[KIDS])
  }

  /** The namespace exists and has this parent. */
  ghost predicate ChildAt(spaces: map<nat, Space>, x: nat, parent: Option<nat>) {
    x in spaces && spaces[x].parent == parent
  }

  /** The new namespaces are different ones; that of the processes and that of the users is a
      child of the one it replaces, the others have no parent. */
  ghost predicate Born(spaces: map<nat, Space>, ns: seq<nat>, ns': seq<nat>, flags: set<nat>) {
    |ns| == 9 && |ns'| == 9 &&
    (forall i :: i in flags && 0 <= i < KIDS ==>
       ChildAt(spaces, ns'[i], if i == PID || i == USER then Some(ns[i]) else None)) &&
    (forall i, j :: i in flags && j in flags && 0 <= i < j < KIDS ==> ns'[i] != ns'[j])
  }

  /** The same after unshare, where the new pid namespace is that of the children. */
  ghost predicate BornApart(spaces: map<nat, Space>, ns: seq<nat>, ns': seq<nat>, flags: set<nat>) {
    Born(spaces, ns, ns', flags - {PID}) && (PID in flags ==> ChildAt(spaces, ns'[KIDS], Some(ns[PID])))
  }

  /** What a slot names is live, and its parent is the one it had. */
  lemma SlotChild(s: State, hold: multiset<nat>, phold: multiset<nat>, q: nat, i: nat, was: map<nat, Space>,
                  parent: Option<nat>)
    requires Conserved(s, hold, phold) && q in s.proxies && i < 9 && |s.proxies[q].ns| == 9
    requires ChildAt(was, s.proxies[q].ns[i], parent) && SameParents(was, s.spaces) && s.proxies[q].ns[i] >= FIRST
    ensures ChildAt(s.spaces, s.proxies[q].ns[i], parent)
  {
    SlotLive(s, hold, phold, q, i);
    hide Conserved;
    assert was[s.proxies[q].ns[i]].parent == parent;
  }

  lemma BornKept(s: State, hold: multiset<nat>, phold: multiset<nat>, q: nat, ns: seq<nat>, flags: set<nat>,
                 was: map<nat, Space>)
    requires Conserved(s, hold, phold) && q in s.proxies && Born(was, ns, s.proxies[q].ns, flags)
    requires SameParents(was, s.spaces) && forall x :: x in was ==> x >= FIRST
    ensures Born(s.spaces, ns, s.proxies[q].ns, flags)
  {
    hide Conserved, SameParents;
    forall i | i in flags && 0 <= i < KIDS
      ensures ChildAt(s.spaces, s.proxies[q].ns[i], if i == PID || i == USER then Some(ns[i]) else None)
    {
      SlotChild(s, hold, phold, q, i, was, if i == PID || i == USER then Some(ns[i]) else None);
    }
  }

  lemma BornAll(spaces: map<nat, Space>, ns: seq<nat>, ns': seq<nat>, flags: Wanted)
    requires Born(spaces, ns, ns', flags * First(ORDER, 8))
    ensures Born(spaces, ns, ns', flags)
  {
    assert ORDER[0] == 0 && ORDER[1] == 1 && ORDER[2] == 2 && ORDER[7] == 3 && ORDER[3] == 4 && ORDER[6] == 5 &&
        ORDER[4] == 6 && ORDER[5] == 7;
    assert forall i :: 0 <= i < 8 ==> i in First(ORDER, 8);
  }

  lemma SpacesRange(s: State, hold: multiset<nat>, phold: multiset<nat>, n: nat)
    requires Conserved(s, hold, phold) && Below(s, n)
    ensures forall x :: x in s.spaces ==> FIRST <= x < n
  {
  }

  /** One more new namespace, numbered x, in slot ORDER[j]. */
  lemma BornMore(s: State, hold: multiset<nat>, phold: multiset<nat>, q: nat, ns0: seq<nat>, ns1: seq<nat>,
                 flags: Wanted, j: nat, next0: nat, x: nat, was: map<nat, Space>)
    requires Conserved(s, hold, phold) && q in s.proxies && j < 8 && ORDER[j] in flags && ORDER[j] < KIDS
    requires Born(was, ns0, ns1, flags * First(ORDER, j)) && Made(ns0, ns1, flags * First(ORDER, j), next0)
    requires ORDER[j] !in First(ORDER, j) && SameParents(was, s.spaces) && forall y :: y in was ==> FIRST <= y < x
    requires s.proxies[q].ns == if ORDER[j] == PID then ns1[PID := x][KIDS := x] else ns1[ORDER[j] := x]
    requires ChildAt(s.spaces, x, if ORDER[j] == PID || ORDER[j] == USER then Some(ns1[ORDER[j]]) else None)
    ensures Born(s.spaces, ns0, s.proxies[q].ns, flags * First(ORDER, j + 1))
  {
    hide Conserved, SameParents;
    var ns, o := s.proxies[q].ns, ORDER[j];
    assert First(ORDER, j + 1) == First(ORDER, j) + {o};
    forall i | i in flags * First(ORDER, j) && 0 <= i < KIDS
      ensures ChildAt(s.spaces, ns[i], if i == PID || i == USER then Some(ns0[i]) else None) && ns[i] < x
    {
      assert ns[i] == ns1[i];
      SlotChild(s, hold, phold, q, i, was, if i == PID || i == USER then Some(ns0[i]) else None);
    }
  }

  lemma KidsBorn(s: State, q: nat, ns0: seq<nat>, ns: seq<nat>, flags: Wanted, was: map<nat, Space>)
    requires Steady(s) && q in s.proxies && PID in flags && |ns| == 9 && |s.proxies[q].ns| == 9
    requires if flags - {PID} == {} then ns == ns0 else BornApart(was, ns0, ns, flags - {PID}) && ns[PID] == ns0[PID]
    requires s.proxies[q].ns == ns[KIDS := s.proxies[q].ns[KIDS]] && SameParents(was, s.spaces)
    requires ChildAt(s.spaces, s.proxies[q].ns[KIDS], Some(ns[PID])) && forall y :: y in was ==> y >= FIRST
    ensures BornApart(s.spaces, ns0, s.proxies[q].ns, flags)
  {
    hide Conserved, SameParents;
    var rest := flags - {PID};
    assert rest - {PID} == rest;
    if rest != {} {
      assert forall i :: 0 <= i < KIDS ==> s.proxies[q].ns[i] == ns[i];
      BornKept(s, multiset{}, multiset{}, q, ns0, rest, was);
    }
  }

  lemma BornUnshared(spaces: map<nat, Space>, ns: seq<nat>, ns': seq<nat>, flags: set<nat>)
    requires Born(spaces, ns, ns', flags) && PID !in flags
    ensures BornApart(spaces, ns, ns', flags)
  {
    assert flags - {PID} == flags;
  }

  lemma MadeUnshared(ns: seq<nat>, ns': seq<nat>, flags: Wanted, base: nat)
    requires Made(ns, ns', flags, base) && PID !in flags
    ensures Unshared(ns, ns', flags, base)
  {
  }

  lemma KidsUnshared(ns0: seq<nat>, ns: seq<nat>, ns': seq<nat>, flags: Wanted, base: nat)
    requires if flags - {PID} == {} then ns == ns0 else Unshared(ns0, ns, flags - {PID}, base)
    requires PID in flags && |ns| == 9 && |ns'| == 9 && ns' == ns[KIDS := ns'[KIDS]] && ns'[KIDS] >= base
    ensures Unshared(ns0, ns', flags, base)
  {
    assert forall i :: i in flags && i != PID ==> i in flags - {PID};
  }

  lemma MadeMore(ns0: seq<nat>, ns: seq<nat>, ns': seq<nat>, flags: Wanted, order: seq<nat>, j: nat, base: nat, x: nat)
    requires j < |order| && order[j] < KIDS && order[j] in flags && Made(ns0, ns, flags * First(order, j), base)
    requires x >= base
    requires ns' == if order[j] == PID then ns[PID := x][KIDS := x] else ns[order[j] := x]
    requires order[j] !in First(order, j)
    ensures Made(ns0, ns', flags * First(order, j + 1), base)
  {
    assert First(order, j + 1) == First(order, j) + {order[j]};
  }

  lemma MadeSkip(ns0: seq<nat>, ns: seq<nat>, flags: Wanted, order: seq<nat>, j: nat, base: nat)
    requires j < |order| && order[j] !in flags && Made(ns0, ns, flags * First(order, j), base)
    ensures Made(ns0, ns, flags * First(order, j + 1), base)
  {
    assert flags * First(order, j + 1) == flags * First(order, j);
  }

  /** What an operation may do to the namespaces: free old ones, add new ones. */
  ghost predicate Evolved(a: map<nat, Space>, n: nat, b: map<nat, Space>) {
    SameParents(a, b) && forall x :: x in b ==> x in a || x >= n
  }

  lemma EvolvedTrans(a: map<nat, Space>, n: nat, b: map<nat, Space>, n': nat, c: map<nat, Space>)
    requires Evolved(a, n, b) && Evolved(b, n', c) && n <= n' && forall x :: x in a ==> x < n
    ensures Evolved(a, n, c)
  {
    ParentsTrans(a, b, c);
  }

  /** The pid slots take the new namespace; what they held is in transit. */
  lemma PidsTraded(s: State, hold: multiset<nat>, phold: multiset<nat>, q: nat, x: nat)
    requires Conserved(s, hold + multiset{x}, phold) && q in s.proxies && |s.proxies[q].ns| == 9
    ensures var ns := s.proxies[q].ns;
            Conserved(s.(proxies := WithSlots(s.proxies, q, ns[PID := x][KIDS := x])),
                      hold + multiset{ns[PID]} + (if ns[KIDS] != ns[PID] then multiset{ns[KIDS]} else multiset{}),
                          phold)
  {
    hide Conserved, Bag;
    var ns := s.proxies[q].ns;
    PidsBags(hold, ns, x);
    SlotsStored(s, hold + multiset{x}, phold, q, ns[PID := x][KIDS := x]);
  }

  lemma PidsBags(hold: multiset<nat>, ns: seq<nat>, x: nat)
    requires |ns| == 9
    ensures var ns' := ns[PID := x][KIDS := x];
            Bag(ns') <= hold + multiset{x} + Bag(ns) &&
                hold + multiset{x} + Bag(ns) - Bag(ns') == hold + multiset{ns[PID]} + KidsBag(ns)
  {
    hide Bag;
    var ns' := ns[PID := x][KIDS := x];
    BagPids(ns, x, x);
    TradeTwo(hold, Bag(ns), multiset{ns[PID]} + KidsBag(ns), x);
    assert Bag(ns') == Bag(ns) - (multiset{ns[PID]} + KidsBag(ns)) + multiset{x};
    assert hold + (multiset{ns[PID]} + KidsBag(ns)) == hold + multiset{ns[PID]} + KidsBag(ns);
  }

  lemma TradeTwo(hold: multiset<nat>, bag: multiset<nat>, out: multiset<nat>, y: nat)
    requires out <= bag
    ensures bag - out + multiset{y} <= hold + multiset{y} + bag
    ensures hold + multiset{y} + bag - (bag - out + multiset{y}) == hold + out
  {
  }

  function OneUserLess(proxies: map<nat, Proxy>, q: nat): map<nat, Proxy>
    requires q in proxies
  {
    if proxies[q].refs > 1 then proxies[q := proxies[q].(refs := proxies[q].refs - 1)] else proxies - {q}
  }

  function WithSlots(proxies: map<nat, Proxy>, q: nat, ns: seq<nat>): map<nat, Proxy>
    requires q in proxies
  {
    proxies[q := proxies[q].(ns := ns)]
  }

  lemma ParentsTrans(a: map<nat, Space>, b: map<nat, Space>, c: map<nat, Space>)
    requires SameParents(a, b) && SameParents(b, c) && forall x :: x in a && x in c ==> x in b
    ensures SameParents(a, c)
  {
    forall x | x in a && x in c
      ensures a[x].parent == c[x].parent
    {
      assert b[x].parent == a[x].parent;
    }
  }

  lemma HeldProxy(s: State, hold: multiset<nat>, phold: multiset<nat>, q: nat)
    requires Conserved(s, hold, phold) && q in phold && q != INIT_PROXY
    ensures q in s.proxies && |s.proxies[q].ns| == 9
  {
    assert CountedProxy(s, phold, q);
  }

  lemma ProxyCounts(s: State, hold: multiset<nat>, phold: multiset<nat>, q: nat)
    requires Conserved(s, hold, phold) && q != INIT_PROXY && q in s.proxies
    ensures |s.proxies[q].ns| == 9 && s.proxies[q].refs == |Users(s.procs, q)| + phold[q]
  {
    assert CountedProxy(s, phold, q);
  }

  lemma PutMany(s: State, hold: multiset<nat>, phold: multiset<nat>, q: nat)
    requires Conserved(s, hold, phold) && q in phold && q != INIT_PROXY && q in s.proxies && s.proxies[q].refs > 1
    ensures Conserved(s.(proxies := OneUserLess(s.proxies, q)), hold, phold - multiset{q})
  {
    hide Conserved, Bag, Users;
    var n := s.proxies[q];
    ProxyCounts(s, hold, phold, q);
    BackAgain(hold, Bag(n.ns));
    SetProxyConserved(s, hold, phold, q, Some(n.(refs := n.refs - 1)), phold - multiset{q});
  }

  lemma BackAgain(hold: multiset<nat>, bag: multiset<nat>)
    ensures bag <= hold + bag && hold + bag - bag == hold
  {
  }

  lemma PutLast(s: State, hold: multiset<nat>, phold: multiset<nat>, q: nat)
    requires Conserved(s, hold, phold) && q in phold && q != INIT_PROXY && q in s.proxies && s.proxies[q].refs <= 1
    ensures |s.proxies[q].ns| == 9
    ensures Conserved(s.(proxies := s.proxies - {q}), hold + multiset(PutOrder(s.proxies[q].ns)), phold - multiset{q})
  {
    assert CountedProxy(s, phold, q);
    var n := s.proxies[q];
    SetProxyConserved(s, hold, phold, q, None, phold - multiset{q});
    PutOrderBag(n.ns);
    assert hold + Bag(n.ns) - Bag([]) == hold + Bag(n.ns);
  }

  lemma SourceLive(s: State, hold: multiset<nat>, phold: multiset<nat>, src: nat, ns: seq<nat>)
    requires Conserved(s, hold, phold) && (src == INIT_PROXY || src in s.proxies)
    requires ns == if src == INIT_PROXY then INIT_SLOTS else s.proxies[src].ns
    ensures |ns| == 9 && forall j :: 0 <= j < |PutOrder(ns)| ==> PutOrder(ns)[j] in s.spaces || PutOrder(ns)[j] < FIRST
  {
    assert |ns| == 9;
    forall i | 0 <= i < 9
      ensures ns[i] in s.spaces || ns[i] < FIRST
    {
      if src != INIT_PROXY {
        SlotLive(s, hold, phold, src, i);
      }
    }
    OrderLive(ns, s.spaces);
  }

  lemma DupStored(s: State, hold: multiset<nat>, phold: multiset<nat>, q: nat, ns: seq<nat>)
    requires |ns| == 9 && Conserved(s, hold + multiset(PutOrder(ns)), phold) && q !in s.proxies && q != INIT_PROXY
    ensures Conserved(s.(proxies := s.proxies[q := Proxy(1, ns)]), hold, phold + multiset{q})
  {
    PutOrderBag(ns);
    FreshProxy(s, hold + Bag(ns), phold, q);
    SetProxyConserved(s, hold + Bag(ns), phold, q, Some(Proxy(1, ns)), phold + multiset{q});
    assert hold + Bag(ns) + Bag([]) - Bag(ns) == hold;
  }

  /** Slot i takes the new namespace; the old one's reference is in transit. */
  lemma SlotTraded(s: State, hold: multiset<nat>, phold: multiset<nat>, q: nat, i: nat, x: nat)
    requires Conserved(s, hold + multiset{x} - multiset{}, phold) && q in s.proxies && i < KIDS && i != PID
    requires |s.proxies[q].ns| == 9
    ensures Conserved(s.(proxies := WithSlots(s.proxies, q, s.proxies[q].ns[i := x])),
                      hold + multiset{s.proxies[q].ns[i]}, phold)
  {
    var ns := s.proxies[q].ns;
    assert hold + multiset{x} - multiset{} == hold + multiset{x};
    BagSet(ns, i, x);
    Trade(hold, Bag(ns), ns[i], x);
    SlotsStored(s, hold + multiset{x}, phold, q, ns[i := x]);
  }

  lemma SlotsStored(s: State, hold: multiset<nat>, phold: multiset<nat>, q: nat, ns: seq<nat>)
    requires Conserved(s, hold, phold) && q in s.proxies && |ns| == 9 && Bag(ns) <= hold + Bag(s.proxies[q].ns)
    ensures Conserved(s.(proxies := WithSlots(s.proxies, q, ns)), hold + Bag(s.proxies[q].ns) - Bag(ns), phold)
  {
    assert CountedProxy(s, phold, q);
    SetProxyConserved(s, hold, phold, q, Some(s.proxies[q].(ns := ns)), phold);
  }

  lemma Trade(hold: multiset<nat>, bag: multiset<nat>, x: nat, y: nat)
    requires multiset{x} <= bag
    ensures bag - multiset{x} + multiset{y} <= hold + multiset{y} + bag
    ensures hold + multiset{y} + bag - (bag - multiset{x} + multiset{y}) == hold + multiset{x}
  {
  }

  lemma Shape(s: State, hold: multiset<nat>, phold: multiset<nat>, q: nat)
    requires Conserved(s, hold, phold) && q in s.proxies
    ensures |s.proxies[q].ns| == 9 && s.proxies[q].refs > 0 && q != INIT_PROXY
  {
  }

  lemma OrderLive(ns: seq<nat>, spaces: map<nat, Space>)
    requires |ns| == 9 && forall i :: 0 <= i < 9 ==> ns[i] in spaces || ns[i] < FIRST
    ensures forall j :: 0 <= j < |PutOrder(ns)| ==> PutOrder(ns)[j] in spaces || PutOrder(ns)[j] < FIRST
  {
    forall j | 0 <= j < |PutOrder(ns)|
      ensures PutOrder(ns)[j] in ns
    {
    }
  }

  lemma FreshProxy(s: State, hold: multiset<nat>, phold: multiset<nat>, q: nat)
    requires Conserved(s, hold, phold) && q !in s.proxies && q != INIT_PROXY
    ensures |Users(s.procs, q)| == 0 && phold[q] == 0
  {
    assert CountedProxy(s, phold, q);
  }
}
