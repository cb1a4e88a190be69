/**
References among namespaces, proxies and processes, as core/ns.c counts them. A
namespace is referenced by the proxies that hold it and by the namespaces that name it as
parent; a proxy by the processes that use it. The initial objects are never counted.
*/
module NsRefs {
  import opened Basics

  /** The slots of a proxy, in the order nsproxy_put visits them except that KIDS, which is
      pid_ns_for_children, comes right after PID there. */
  const UTS: nat := 0
  const IPC: nat := 1
  const MNT: nat := 2
  const PID: nat := 3
  const NET: nat := 4
  const USER: nat := 5
  const CGROUP: nat := 6
  const TIME: nat := 7
  const KIDS: nat := 8

  /** Namespaces 0 to 7 are the initial ones, one per type; others have larger numbers. */
  const FIRST: nat := 8
  const INIT_PROXY: nat := 0

  datatype Space = Space(refs: nat, parent: Option<nat>)

  datatype Proxy = Proxy(refs: nat, ns: seq<nat>)

  const INIT_SLOTS: seq<nat> := [0, 1, 2, 3, 4, 5, 6, 7, 3]

  /** spaces and proxies hold what is allocated besides the initial objects; procs the
      nsproxy pointer of every process that has one. */
  datatype State = State(spaces: map<nat, Space>, proxies: map<nat, Proxy>, procs: map<nat, nat>)

  /** A slot holds a reference of its own: KIDS only when it differs from PID. */
  predicate Counts(ns: seq<nat>, i: nat) {
    |ns| == 9 && i < 9 && (i == KIDS ==> ns[KIDS] != ns[PID])
  }

  datatype Ref = Held(q: nat, i: nat) | Child(y: nat)

  function SlotRefs(q: nat, ns: seq<nat>, x: nat): set<Ref> {
    set i: nat | i < 9 && Counts(ns, i) && ns[i] == x :: Held(q, i)
  }

  function HeldRefs(proxies: map<nat, Proxy>, x: nat): set<Ref> {
    set q, i: nat | q in proxies && i < 9 && Counts(proxies[q].ns, i) && proxies[q].ns[i] == x :: Held(q, i)
  }

  function ChildRefs(spaces: map<nat, Space>, x: nat): set<Ref> {
    set y | y in spaces && spaces[y].parent == Some(x) :: Child(y)
  }

  function Refs(s: State, x: nat): set<Ref> { HeldRefs(s.proxies, x) + ChildRefs(s.spaces, x) }

  function Users(procs: map<nat, nat>, q: nat): set<nat> { set p | p in procs && procs[p] == q }

  function Live(s: State, x: nat): nat { if x in s.spaces then s.spaces[x].refs else 0 }

  function LiveProxy(s: State, q: nat): nat { if q in s.proxies then s.proxies[q].refs else 0 }

  /** hold and phold are references an operation has taken and not yet stored. */
  ghost predicate Counted(s: State, hold: multiset<nat>, x: nat) {
    x >= FIRST ==> Live(s, x) == |Refs(s, x)| + hold[x]
  }

  ghost predicate CountedProxy(s: State, phold: multiset<nat>, q: nat) {
    q != INIT_PROXY ==> LiveProxy(s, q) == |Users(s.procs, q)| + phold[q]
  }

  /** Every slot names an initial or a live namespace; a parent is older than its child. */
  ghost predicate Formed(s: State) {
    INIT_PROXY !in s.proxies &&
    (forall q {:trigger s.proxies[q]} :: q in s.proxies ==> |s.proxies[q].ns| == 9 && s.proxies[q].refs > 0) &&
    (forall x {:trigger s.spaces[x]} :: x in s.spaces ==>
      x >= FIRST && s.spaces[x].refs > 0 && (s.spaces[x].parent.Some? ==> s.spaces[x].parent.value < x))
  }

  ghost predicate Conserved(s: State, hold: multiset<nat>, phold: multiset<nat>) {
    Formed(s) && (forall x {:trigger Counted(s, hold, x)} :: Counted(s, hold, x)) &&
    (forall q {:trigger CountedProxy(s, phold, q)} :: CountedProxy(s, phold, q))
  }

  /** Between operations nothing is in transit. */
  ghost predicate Steady(s: State) { Conserved(s, multiset{}, multiset{}) }

  // ---------------------------------------------------------------- primitives

  /** The *_get of a namespace. */
  function Get(s: State, x: nat): State {
    if x in s.spaces then s.(spaces := s.spaces[x := s.spaces[x].(refs := s.spaces[x].refs + 1)]) else s
  }

  /** The *_put: with the last reference the namespace goes, and then its reference on its
      parent. */
  function Put(s: State, x: nat): State
    decreases x
  {
    if x !in s.spaces then s
    else if s.spaces[x].refs > 1 then s.(spaces := s.spaces[x := s.spaces[x].(refs := s.spaces[x].refs - 1)])
    else
      var s1 := s.(spaces := s.spaces - {x});
      match s.spaces[x].parent
      case None => s1
      case Some(p) => if p < x then Put(s1, p) else s1
  }

  /** The references of a proxy's slots. */
  function Bag(ns: seq<nat>): multiset<nat> {
    if |ns| != 9 then multiset{}
    else multiset(ns[..KIDS]) + (if ns[KIDS] != ns[PID] then multiset{ns[KIDS]} else multiset{})
  }

  function SlotsOf(o: Option<Proxy>): seq<nat> { if o.Some? then o.value.ns else [] }

  function ProxyIn(s: State, q: nat): Option<Proxy> { if q in s.proxies then Some(s.proxies[q]) else None }

  function SetProxy(s: State, q: nat, o: Option<Proxy>): State {
    s.(proxies := if o.Some? then s.proxies[q := o.value] else s.proxies - {q})
  }

  // ------------------------------------------------------------------- counting

  /** Two sets that differ at most in r. */
  lemma SwapOne<T>(a: set<T>, b: set<T>, c: set<T>, r: T)
    requires b - {r} == a - {r} && r !in c
    ensures |b + c| - (if r in b then 1 else 0) == |a + c| - (if r in a then 1 else 0)
  {
    Without(a + c, r);
    Without(b + c, r);
    assert (b + c) - {r} == (b - {r}) + c;
    assert (a + c) - {r} == (a - {r}) + c;
  }

  lemma Replace<T>(a: set<T>, b: set<T>, x: set<T>, y: set<T>, c: set<T>)
    requires a - x == b - y && x <= a && y <= b && a !! c && b !! c
    ensures |a + c| - |x| == |b + c| - |y|
  {
    var rest := (a - x) + c;
    assert a + c == rest + x && rest !! x;
    assert b + c == rest + y && rest !! y;
  }

  function PrefixRefs(q: nat, ns: seq<nat>, x: nat, n: nat): set<Ref> {
    set i: nat | i < n && i < |ns| && ns[i] == x :: Held(q, i)
  }

  /** The first n slots of a proxy that name x, against their multiset. */
  lemma {:induction false} PrefixCount(q: nat, ns: seq<nat>, x: nat, n: nat)
    requires n <= |ns|
    ensures |PrefixRefs(q, ns, x, n)| == multiset(ns[..n])[x]
    decreases n
  {
    if n > 0 {
      PrefixCount(q, ns, x, n - 1);
      var a, b := PrefixRefs(q, ns, x, n), PrefixRefs(q, ns, x, n - 1);
      assert Held(q, n - 1) in a <==> ns[n - 1] == x;
      forall r: Ref
        ensures r in a - {Held(q, n - 1)} <==> r in b
      {
        assert r in a <==> r.Held? && r.q == q && r.i < n && r.i < |ns| && ns[r.i] == x;
        assert r in b <==> r.Held? && r.q == q && r.i < n - 1 && r.i < |ns| && ns[r.i] == x;
      }
      assert a - {Held(q, n - 1)} == b;
      Without(a, Held(q, n - 1));
      assert ns[..n] == ns[..n - 1] + [ns[n - 1]];
    } else {
      assert PrefixRefs(q, ns, x, 0) == {};
    }
  }

  lemma BagCount(q: nat, ns: seq<nat>, x: nat)
    ensures |SlotRefs(q, ns, x)| == Bag(ns)[x]
  {
    if |ns| == 9 {
      PrefixCount(q, ns, x, KIDS);
      var a := SlotRefs(q, ns, x);
      assert Held(q, KIDS) in a <==> ns[KIDS] != ns[PID] && ns[KIDS] == x;
      assert a - {Held(q, KIDS)} == PrefixRefs(q, ns, x, KIDS);
      Without(a, Held(q, KIDS));
    } else {
      assert SlotRefs(q, ns, x) == {};
    }
  }

  lemma SlotSplit(s: State, q: nat, o: Option<Proxy>, x: nat)
    ensures var s' := SetProxy(s, q, o);
            HeldRefs(s'.proxies, x) - SlotRefs(q, SlotsOf(o), x) ==
                  HeldRefs(s.proxies, x) - SlotRefs(q, SlotsOf(ProxyIn(s, q)), x) &&
            SlotRefs(q, SlotsOf(o), x) <= HeldRefs(s'.proxies, x) &&
                SlotRefs(q, SlotsOf(ProxyIn(s, q)), x) <= HeldRefs(s.proxies, x)
  {
    var s' := SetProxy(s, q, o);
    forall r: Ref
      ensures r in HeldRefs(s'.proxies, x) <==>
                r.Held? && r.q in s'.proxies && r.i < 9 && Counts(s'.proxies[r.q].ns, r.i) &&
                    s'.proxies[r.q].ns[r.i] == x
      ensures r in HeldRefs(s.proxies, x) <==>
                r.Held? && r.q in s.proxies && r.i < 9 && Counts(s.proxies[r.q].ns, r.i) && s.proxies[r.q].ns[r.i] == x
      ensures r in SlotRefs(q, SlotsOf(o), x) <==>
                r.Held? && r.q == q && r.i < 9 && Counts(SlotsOf(o), r.i) && SlotsOf(o)[r.i] == x
      ensures r in SlotRefs(q, SlotsOf(ProxyIn(s, q)), x) <==>
                r.Held? && r.q == q && r.i < 9 && Counts(SlotsOf(ProxyIn(s, q)), r.i) &&
                    SlotsOf(ProxyIn(s, q))[r.i] == x
    {
    }
  }

  // ---------------------------------------------------------------- conservation

  /** Storing other slots in a proxy, making or dropping one: its old references come free,
      the new ones must be in transit. */
  lemma SetProxyConserved(s: State, hold: multiset<nat>, phold: multiset<nat>, q: nat, o: Option<Proxy>,
                          phold': multiset<nat>)
    requires Conserved(s, hold, phold) && q != INIT_PROXY && (o.Some? ==> |o.value.ns| == 9 && o.value.refs > 0)
    requires Bag(SlotsOf(o)) <= hold + Bag(SlotsOf(ProxyIn(s, q)))
    requires (if o.Some? then o.value.refs else 0) == |Users(s.procs, q)| + phold'[q] && forall p :: p != q ==>
               phold'[p] == phold[p]
    ensures Conserved(SetProxy(s, q, o), hold + Bag(SlotsOf(ProxyIn(s, q))) - Bag(SlotsOf(o)), phold')
  {
    var s', hold' := SetProxy(s, q, o), hold + Bag(SlotsOf(ProxyIn(s, q))) - Bag(SlotsOf(o));
    forall x
      ensures Counted(s', hold', x)
    {
      assert Counted(s, hold, x);
      SlotSplit(s, q, o, x);
      BagCount(q, SlotsOf(o), x);
      BagCount(q, SlotsOf(ProxyIn(s, q)), x);
      Replace(HeldRefs(s'.proxies, x), HeldRefs(s.proxies, x), SlotRefs(q, SlotsOf(o), x),
              SlotRefs(q, SlotsOf(ProxyIn(s, q)), x),
              ChildRefs(s.spaces, x));
    }
    forall p
      ensures CountedProxy(s', phold', p)
    {
      assert CountedProxy(s, phold, p);
    }
  }

  /** Only reference counts of namespaces change. */
  lemma CountsOnly(s: State, hold: multiset<nat>, phold: multiset<nat>, s': State, hold': multiset<nat>)
    requires Conserved(s, hold, phold) && Formed(s') && s'.proxies == s.proxies && s'.procs == s.procs
    requires s'.spaces.Keys == s.spaces.Keys
    requires forall x :: x in s.spaces ==> s'.spaces[x].parent == s.spaces[x].parent
    requires forall x :: x >= FIRST ==> Live(s', x) - hold'[x] == Live(s, x) - hold[x]
    ensures Conserved(s', hold', phold)
  {
    forall x
      ensures Counted(s', hold', x)
    {
      assert Counted(s, hold, x);
      assert ChildRefs(s'.spaces, x) == ChildRefs(s.spaces, x);
    }
    forall q
      ensures CountedProxy(s', phold, q)
    {
      assert CountedProxy(s, phold, q);
    }
  }

  lemma GetConserved(s: State, hold: multiset<nat>, phold: multiset<nat>, x: nat)
    requires Conserved(s, hold, phold) && (x in s.spaces || x < FIRST)
    ensures Conserved(Get(s, x), hold + multiset{x}, phold)
  {
    CountsOnly(s, hold, phold, Get(s, x), hold + multiset{x});
  }

  /** A namespace without references goes, and leaves its reference on its parent. */
  lemma DropConserved(s: State, hold: multiset<nat>, phold: multiset<nat>, x: nat, hold': multiset<nat>)
    requires Conserved(s, hold, phold) && x in hold && x in s.spaces && s.spaces[x].refs == 1
    requires hold' == hold - multiset{x} + (if s.spaces[x].parent.Some? then multiset{s.spaces[x].parent.value}
                                            else multiset{})
    ensures Conserved(s.(spaces := s.spaces - {x}), hold', phold)
  {
    var s' := s.(spaces := s.spaces - {x});
    var o := s.spaces[x].parent;
    assert Counted(s, hold, x);
    forall y
      ensures Counted(s', hold', y)
    {
      assert Counted(s, hold, y);
      DropRefs(s, x, y);
    }
    forall q
      ensures CountedProxy(s', phold, q)
    {
      assert CountedProxy(s, phold, q);
    }
  }

  lemma ChildOf(spaces: map<nat, Space>, x: nat, y: nat)
    ensures Child(x) in ChildRefs(spaces, y) <==> x in spaces && spaces[x].parent == Some(y)
  {
  }

  lemma DropSets(s: State, x: nat, y: nat)
    requires x in s.spaces
    ensures var a, b := ChildRefs(s.spaces, y), ChildRefs(s.spaces - {x}, y);
            a - {Child(x)} == b - {Child(x)} && Child(x) !in b && Child(x) !in HeldRefs(s.proxies, y)
  {
    var a, b := ChildRefs(s.spaces, y), ChildRefs(s.spaces - {x}, y);
    forall r: Ref | r != Child(x)
      ensures r in b <==> r in a
    {
      if r.Child? {
        ChildOf(s.spaces, r.y, y);
        ChildOf(s.spaces - {x}, r.y, y);
      }
    }
  }

  lemma DropRefs(s: State, x: nat, y: nat)
    requires x in s.spaces
    ensures var s' := s.(spaces := s.spaces - {x});
            |Refs(s', y)| == |Refs(s, y)| - (if s.spaces[x].parent == Some(y) then 1 else 0)
  {
    hide ChildRefs, HeldRefs;
    DropSets(s, x, y);
    ChildOf(s.spaces, x, y);
    var a, b, c := ChildRefs(s.spaces, y), ChildRefs(s.spaces - {x}, y), HeldRefs(s.proxies, y);
    SwapOne(a, b, c, Child(x));
    assert Refs(s, y) == a + c && Refs(s.(spaces := s.spaces - {x}), y) == b + c;
  }

  lemma {:induction false} PutConserved(s: State, hold: multiset<nat>, phold: multiset<nat>, x: nat)
    requires Conserved(s, hold, phold) && x in hold
    ensures Conserved(Put(s, x), hold - multiset{x}, phold)
    decreases x
  {
    assert Counted(s, hold, x);
    if x !in s.spaces {
      CountsOnly(s, hold, phold, s, hold - multiset{x});
    } else if s.spaces[x].refs > 1 {
      CountsOnly(s, hold, phold, Put(s, x), hold - multiset{x});
    } else {
      var s1 := s.(spaces := s.spaces - {x});
      match s.spaces[x].parent
      case None =>
        DropConserved(s, hold, phold, x, hold - multiset{x});
      case Some(p) =>
        var hold' := hold - multiset{x} + multiset{p};
        DropConserved(s, hold, phold, x, hold');
        PutConserved(s1, hold', phold, p);
        assert hold' - multiset{p} == hold - multiset{x};
    }
  }

  /** A new namespace: its creator has the first reference, its parent one more. */
  lemma NewConserved(s: State, hold: multiset<nat>, phold: multiset<nat>, x: nat, parent: Option<nat>)
    requires Conserved(s, hold, phold) && x >= FIRST && x !in s.spaces && hold[x] == 0 && Refs(s, x) == {}
    requires parent.Some? ==> parent.value < x && parent.value in hold
    ensures Conserved(s.(spaces := s.spaces[x := Space(1, parent)]),
                      hold + multiset{x} - (if parent.Some? then multiset{parent.value} else multiset{}), phold)
  {
    var s' := s.(spaces := s.spaces[x := Space(1, parent)]);
    var hold' := hold + multiset{x} - (if parent.Some? then multiset{parent.value} else multiset{});
    forall y
      ensures Counted(s', hold', y)
    {
      assert Counted(s, hold, y);
      NewRefs(s, x, parent, y);
    }
    forall q
      ensures CountedProxy(s', phold, q)
    {
      assert CountedProxy(s, phold, q);
    }
  }

  lemma NewRefs(s: State, x: nat, parent: Option<nat>, y: nat)
    requires x !in s.spaces
    ensures var s' := s.(spaces := s.spaces[x := Space(1, parent)]);
            |Refs(s', y)| == |Refs(s, y)| + (if parent == Some(y) then 1 else 0)
  {
    var s' := s.(spaces := s.spaces[x := Space(1, parent)]);
    var t := s'.(spaces := s'.spaces - {x});
    assert t.spaces == s.spaces;
    DropRefs(s', x, y);
  }

  /** Pointing a process at another proxy, or at none. */
  function SetProc(s: State, p: nat, o: Option<nat>): State {
    s.(procs := if o.Some? then s.procs[p := o.value] else s.procs - {p})
  }

  function ProcIn(s: State, p: nat): Option<nat> { if p in s.procs then Some(s.procs[p]) else None }

  function Owing(o: Option<nat>): multiset<nat> { if o.Some? && o.value != INIT_PROXY then multiset{o.value}
                                                 else multiset{} }

  lemma OwingCount(o: Option<nat>, q: nat)
    ensures Owing(o)[q] == if o == Some(q) && q != INIT_PROXY then 1 else 0
  {
  }

  lemma SetProcConserved(s: State, hold: multiset<nat>, phold: multiset<nat>, p: nat, o: Option<nat>)
    requires Conserved(s, hold, phold) && Owing(o) <= phold + Owing(ProcIn(s, p))
    ensures Conserved(SetProc(s, p, o), hold, phold + Owing(ProcIn(s, p)) - Owing(o))
  {
    var s' := SetProc(s, p, o);
    var phold' := phold + Owing(ProcIn(s, p)) - Owing(o);
    forall x
      ensures Counted(s', hold, x)
    {
      assert Counted(s, hold, x);
      assert Refs(s', x) == Refs(s, x);
    }
    forall q
      ensures CountedProxy(s', phold', q)
    {
      assert CountedProxy(s, phold, q);
      UserCount(s, p, o, q);
      OwingCount(o, q);
      OwingCount(ProcIn(s, p), q);
    }
  }

  lemma UserSets(s: State, p: nat, o: Option<nat>, q: nat)
    ensures var a, b := Users(s.procs, q), Users(SetProc(s, p, o).procs, q);
            (p in a <==> ProcIn(s, p) == Some(q)) && (p in b <==> o == Some(q)) && a - {p} == b - {p}
  {
  }

  lemma UserCount(s: State, p: nat, o: Option<nat>, q: nat)
    ensures |Users(SetProc(s, p, o).procs, q)| - (if o == Some(q) then 1 else 0) ==
            |Users(s.procs, q)| - (if ProcIn(s, p) == Some(q) then 1 else 0)
  {
    hide Users, SetProc, ProcIn;
    UserSets(s, p, o, q);
    Without(Users(s.procs, q), p);
    Without(Users(SetProc(s, p, o).procs, q), p);
  }
}
