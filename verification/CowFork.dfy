/**
Fork and copy-on-write faults: mm_fork_copy_user_leaf, mm_dup_user's walk and
mm_cow_fault_page, each a run of steps on the sharing state.
*/
module CowFork {
  import opened Basics
  import opened PageTables
  import opened MmTables
  import opened MmPaths
  import opened FrameSharing
  import opened MmLifecycle
  import opened AddressSpaces

  /** At most a free frame was written to. */
  ghost predicate Idled(s: State, ram: set<nat>, s': State) {
    s' == s || exists f: nat, page: Page :: f in ram && f !in s.refs && s' == Scribble(s, f, page)
  }

  /** No frame is free but the one whose number is the page's own. */
  ghost predicate NoFrame(k: Kernel, v: nat)
    reads k, k.ft
  {
    forall f :: f in k.ft.free ==> f == v
  }

  /** Memory is short: no page for a table, no frame, or the kernel's own map lacks the page. */
  ghost predicate Short(k: Kernel, v: nat)
    reads k, k.st, k.ft
  {
    |k.st.heap| == 0 || NoFrame(k, v) || !Has(k.S(), KERNEL, v)
  }

  /** Every frame holds what it held. */
  ghost predicate SameBytes(mem: map<nat, Page>, mem': map<nat, Page>) {
    forall g: nat :: At(mem', g) == At(mem, g)
  }

  /** mm_user_frame_alloc_avoid_va: a frame whose number is not the page's own. A
      colliding frame is held aside, then given back. */
  method AllocAvoid(k: Kernel, v: nat, zero: bool) returns (r: Option<nat>, ghost s1: State)
    requires k.Valid()
    modifies k`shm, k.ft
    ensures k.Valid() && Idled(old(k.S()), k.ft.ram, s1)
    ensures r.None? ==> k.S() == s1
    ensures r.Some? ==> r.value != v && r.value in k.ft.ram && r.value < LIMIT && r.value !in old(k.ft.refs)
    ensures r.Some? ==> k.S() == Alloc(s1, r.value, if zero then ZeroPage() else At(s1.mem, r.value))
    ensures !zero ==> SameBytes(old(k.ft.mem), s1.mem)
    ensures r.None? ==> NoFrame(k, v)
  {
    hide TablesOk, Views;
    ghost var s0 := k.S();
    ghost var aside: Page := [];
    var held: seq<nat> := [];
    r := None;
    while |held| < 8
      invariant k.Valid() && r == None && |held| <= 1
      invariant held == [] ==> k.S() == s0
      invariant held != [] ==> held[0] == v && v in k.ft.ram && v !in s0.refs && k.S() == Alloc(s0, v, aside)
      invariant held != [] && !zero ==> aside == At(s0.mem, v)
      decreases 8 - |held|
    {
      r := k.ft.Alloc(zero);
      if r.None? {
        assert k.ft.free == [];
        break;
      }
      k.shm := k.shm - {r.value};
      if r.value != v {
        break;
      }
      aside := if zero then ZeroPage() else At(s0.mem, v);
      held := held + [v];
      r := None;
    }
    s1 := if held == [] then s0 else Scribble(s0, v, aside);
    if held != [] {
      k.ft.Release(held[0]);
      GiveBack(s0, v, aside, r, if zero then ZeroPage() else if r.Some? then At(s1.mem, r.value) else []);
    }
  }

  lemma GiveBack(s: State, v: nat, aside: Page, r: Option<nat>, page: Page)
    requires v !in s.refs && (r.Some? ==> r.value != v && r.value !in s.refs)
    ensures r.None? ==> Release(Alloc(s, v, aside), v) == Scribble(s, v, aside)
    ensures r.Some? ==>
              Release(Alloc(Alloc(s, v, aside), r.value, page), v) == Alloc(Scribble(s, v, aside), r.value, page)
  {
    assert s.refs[v := 1] - {v} == s.refs;
    if r.Some? {
      assert s.refs[v := 1][r.value := 1] - {v} == s.refs[r.value := 1];
    }
  }

  // -------------------------------------------------------------------- fork

  /** mm_fork_va_is_primary_stack: USER_TLS_BASE_LAYOUT up to 64 KiB above
      USER_STACK_TOP_LAYOUT, in pages. */
  predicate PrimaryStack(v: nat) { 0x5_F600 <= v < 0x6_0010 }

  /** The flag bits that fork passes on. */
  function ForkFlags(e: Entry): Entry {
    NIL.(rw := e.rw, us := e.us, pwt := e.pwt, pcd := e.pcd, glob := e.glob, cow := e.cow, owned := e.owned, nx := e.nx)
  }

  function ToLeaf(e: Entry): Leaf { Leaf(e.ppn, e.rw, e.cow, e.owned) }

  /** The walk found pte at page v of the parent; the child owns nothing there yet. */
  ghost predicate ForkPair(k: Kernel, p: nat, c: nat, v: nat, pte: Entry)
    reads k, k.st, k.ft
  {
    k.Valid() && Steady(k.S(), k.ft.ram) && p in k.st.mms && c in k.st.mms && p != c && v < LIMIT &&
    p in k.view && v in k.view[p] && k.view[p][v] == ToLeaf(pte) && c in k.view &&
    p != KERNEL && c != KERNEL && Unowned(LeafIn(k.S(), c, v)) &&
    pte.ppn < 0x100_0000_0000 && (pte.owned ==> pte.ppn < LIMIT)
  }

  lemma RemapFree(s: State, m: nat, v: nat, leaf: Leaf)
    requires m in s.view && Unowned(LeafIn(s, m, v))
    ensures Remap(s, m, v, leaf) == Install(s, m, v, Some(leaf))
  {
  }

  lemma RetainRelease(s: State, ram: set<nat>, f: nat)
    requires Steady(s, ram) && f in s.refs
    ensures Release(Retain(s, f), f) == s
  {
    assert s.refs[f] > 0;
    assert s.refs[f := s.refs[f] + 1][f := s.refs[f]] == s.refs;
  }

  /** Huge leaves are never owned. */
  lemma {:induction false} OwnedNotHuge(ts: Tables, info: Infos, m: nat, id: Id, lvl: nat, v: nat)
    requires Wf(ts, info) && 1 <= lvl <= 4 && Met(ts, info, m, id, v, 4 - lvl) && HugeAt(ts, id, lvl, v)
    ensures LeafAt(ts, id, lvl, v).Some? && !LeafAt(ts, id, lvl, v).value.owned
    decreases lvl
  {
    assert WfTable(ts, info, id);
    assert WfEntry(info, id, Idx(lvl, v), ts[id][Idx(lvl, v)]);
    if !IsHuge(lvl, ts[id][Idx(lvl, v)]) {
      MetNext(ts, info, m, id, lvl, v);
      OwnedNotHuge(ts, info, m, ts[id][Idx(lvl, v)].ppn, lvl - 1, v);
    }
  }

  lemma ProtectReady(k: Kernel, m: nat, v: nat)
    requires k.Valid() && m in k.st.mms && v < LIMIT && m in k.view && v in k.view[m] && k.view[m][v].owned
    ensures !HugeAt(k.st.ts, k.st.mms[m].root, 4, v)
  {
    LeafInView(k.st, m, v);
    assert MmOk(k.st.ts, k.st.info, m, k.st.mms[m]);
    if HugeAt(k.st.ts, k.st.mms[m].root, 4, v) {
      OwnedNotHuge(k.st.ts, k.st.info, m, k.st.mms[m].root, 4, v);
    }
  }

  /** Retain, remap and protect make one sharing step. */
  lemma ForkShareTaken(s: State, ram: set<nat>, p: nat, c: nat, v: nat, l: Leaf, s1: State, s2: State, s3: State)
    requires Steady(s, ram) && CanShare(s, p, c, v) && s.view[p][v] == l
    requires s1 == if l.owned then Retain(s, l.ppn) else s
    requires c in s1.view && s2 == Remap(s1, c, v, SharedLeaf(l))
    requires s3 == if Writable(l) then Protect(s2, p, v) else s2
    ensures Taken(s, ram, [SShare(p, c, v)], s3)
  {
    assert LeafIn(s1, c, v) == LeafIn(s, c, v);
    RemapFree(s1, c, v, SharedLeaf(l));
    assert s3 == ForkShare(s, p, c, v);
    TakenOne(s, ram, SShare(p, c, v));
  }

  lemma TakenNone(s: State, ram: set<nat>)
    requires Steady(s, ram)
    ensures Taken(s, ram, [], s)
  {
  }

  /** frame_retain on an owned leaf's frame. */
  method RetainLeaf(k: Kernel, m: nat, v: nat, pte: Entry)
    requires k.Valid() && Steady(k.S(), k.ft.ram) && m in k.view && v in k.view[m] && k.view[m][v] == ToLeaf(pte)
    modifies k.ft
    ensures k.Valid() && (pte.owned ==> pte.ppn in old(k.ft.refs))
    ensures k.S() == if pte.owned then Retain(old(k.S()), pte.ppn) else old(k.S())
  {
    hide TablesOk, Views, Steady;
    if pte.owned {
      OwnedLive(k.S(), k.ft.ram, m, v);
      var kept := k.ft.Retain(pte.ppn);
      assert kept == 0;
    }
  }

  lemma RemapOther(s: State, m: nat, v: nat, leaf: Leaf, n: nat)
    requires m in s.view && n in s.view && n != m
    ensures n in Remap(s, m, v, leaf).view && Remap(s, m, v, leaf).view[n] == s.view[n]
  {
  }

  /** The child's flags for a frame it shares with the parent. */
  function ShareFlags(pte: Entry): Entry {
    if pte.rw || pte.cow then ForkFlags(pte).(rw := false, cow := true) else ForkFlags(pte).(cow := false)
  }

  /** Fork one page by sharing its frame read-only. */
  method ForkLeafShare(k: Kernel, p: nat, c: nat, v: nat, pte: Entry) returns (ok: bool, ghost steps: seq<Step>)
    requires ForkPair(k, p, c, v, pte) && (pte.owned || (pte.ppn != v && !Writable(ToLeaf(pte))))
    modifies k`view, k.st, k.ft
    ensures k.Valid() && SameMms(old(k.st.mms), k.st.mms) && k.st.mms.Keys == old(k.st.mms.Keys)
    ensures Taken(old(k.S()), k.ft.ram, steps, k.S()) && steps == if ok then [SShare(p, c, v)] else []
    ensures !ok ==> |k.st.heap| == 0
  {
    hide TableStore.Valid, FrameTable.Valid, Views, Steady, Taken, Remap, SameMms, Protect;
    ghost var s0 := k.S();
    RetainLeaf(k, p, v, pte);
    ghost var s1 := k.S();
    var flags := ShareFlags(pte);
    assert Leaf(pte.ppn, flags.rw, flags.cow, flags.owned) == SharedLeaf(ToLeaf(pte));
    ok := k.MapPage(c, v, pte.ppn, flags);
    if !ok {
      if pte.owned {
        k.ft.Release(pte.ppn);
        RetainRelease(s0, k.ft.ram, pte.ppn);
      }
      TakenNone(s0, k.ft.ram);
      steps := [];
      return;
    }
    ghost var s2 := k.S();
    if pte.rw || pte.cow {
      RemapOther(s1, c, v, SharedLeaf(ToLeaf(pte)), p);
      ProtectReady(k, p, v);
      k.ProtectLeaf(p, v);
    }
    steps := [SShare(p, c, v)];
    ForkShareTaken(s0, k.ft.ram, p, c, v, ToLeaf(pte), s1, s2, k.S());
  }

  // ------------------------------------------------------------ fresh frames

  lemma IdledTaken(s: State, ram: set<nat>, s1: State) returns (steps: seq<Step>)
    requires Steady(s, ram) && Idled(s, ram, s1)
    ensures Taken(s, ram, steps, s1) && Steady(s1, ram) && s1.refs == s.refs && s1.view == s.view && s1.cache == s.cache
    ensures forall j :: 0 <= j < |steps| ==> steps[j].SScribble?
    ensures forall g: nat :: g in s.refs || g !in ram ==> At(s1.mem, g) == At(s.mem, g)
  {
    if s1 == s {
      steps := [];
    } else {
      var f: nat, page: Page :| f in ram && f !in s.refs && s1 == Scribble(s, f, page);
      steps := [SScribble(f, page)];
      TakenOne(s, ram, SScribble(f, page));
    }
  }

  lemma RemapFresh(s: State, ram: set<nat>, m: nat, v: nat, f: nat, page: Page, rw: bool)
    requires Steady(s, ram) && m in s.view && f !in s.refs
    ensures Remap(Alloc(s, f, page), m, v, Leaf(f, rw, false, true)) == Fresh(s, m, v, f, page, rw)
  {
    if Has(s, m, v) && s.view[m][v].owned {
      OwnedLive(s, ram, m, v);
    }
    assert LeafIn(Alloc(s, f, page), m, v) == LeafIn(s, m, v);
  }

  /** The address space got a new private frame with this content at page v. */
  ghost predicate Renewed(s: State, ram: set<nat>, steps: seq<Step>, s': State, m: nat, v: nat, page: Page) {
    Taken(s, ram, steps, s') && |steps| > 0 && (forall j :: 0 <= j < |steps| - 1 ==> steps[j].SScribble?) &&
    var last := steps[|steps| - 1];
    last.SFresh? && last.m == m && last.v == v && last.page == page && last.rw && last.f != v
  }

  /** Only free frames were written to. */
  ghost predicate OnlyScribbles(steps: seq<Step>) {
    forall j :: 0 <= j < |steps| ==> steps[j].SScribble?
  }

  lemma FreshTaken(s: State, ram: set<nat>, s1: State, m: nat, v: nat, f: nat, page: Page) returns (steps: seq<Step>)
    requires Steady(s, ram) && Idled(s, ram, s1) && f in ram && f !in s.refs && UserMm(s, m) && v < LIMIT && f != v
    ensures m in s1.view
    ensures Renewed(s, ram, steps, Remap(Alloc(s1, f, page), m, v, Leaf(f, true, false, true)), m, v, page)
  {
    var pre := IdledTaken(s, ram, s1);
    var step := SFresh(m, v, f, page, true);
    TakenOne(s1, ram, step);
    RemapFresh(s1, ram, m, v, f, page, true);
    TakenThen(s, ram, pre, s1, [step], Fresh(s1, m, v, f, page, true));
    steps := pre + [step];
  }

  lemma ReturnTaken(s: State, ram: set<nat>, s1: State, f: nat, page: Page) returns (steps: seq<Step>)
    requires Steady(s, ram) && Idled(s, ram, s1) && f in ram && f !in s.refs
    ensures Taken(s, ram, steps, Release(Alloc(s1, f, page), f)) && OnlyScribbles(steps)
  {
    var pre := IdledTaken(s, ram, s1);
    TakenOne(s1, ram, SScribble(f, page));
    ScribbleSteady(s1, ram, f, page);
    TakenThen(s, ram, pre, s1, [SScribble(f, page)], Scribble(s1, f, page));
    steps := pre + [SScribble(f, page)];
  }

  /** Copy a page into a new frame. */
  method CopyToNew(k: Kernel, v: nat, src: nat) returns (r: Option<nat>, ghost s1: State)
    requires k.Valid() && Steady(k.S(), k.ft.ram) && (src in k.ft.refs || src !in k.ft.ram)
    modifies k`shm, k.ft
    ensures k.Valid() && Idled(old(k.S()), k.ft.ram, s1)
    ensures r.None? ==> k.S() == s1 && NoFrame(k, v)
    ensures r.Some? ==> r.value != v && r.value in k.ft.ram && r.value < LIMIT && r.value !in old(k.ft.refs)
    ensures r.Some? ==> k.S() == Alloc(s1, r.value, At(old(k.ft.mem), src))
  {
    hide TableStore.Valid, Views, Steady;
    ghost var s0 := k.S();
    r, s1 := AllocAvoid(k, v, false);
    if r.Some? {
      var _ := IdledTaken(s0, k.ft.ram, s1);
      k.ft.Copy(r.value, src);
      assert At(s1.mem[r.value := At(s1.mem, r.value)], src) == At(s0.mem, src);
    }
  }

  /** A page that is not an unowned identity page lives in a live frame or outside the pool. */
  lemma CopySource(s: State, ram: set<nat>, m: nat, v: nat)
    requires Steady(s, ram) && Private(s, m, v)
    ensures s.view[m][v].ppn in s.refs || s.view[m][v].ppn !in ram
  {
    if s.view[m][v].owned {
      OwnedLive(s, ram, m, v);
    }
  }

  lemma IdledOnly(s: State, ram: set<nat>, s1: State) returns (steps: seq<Step>)
    requires Steady(s, ram) && Idled(s, ram, s1)
    ensures Taken(s, ram, steps, s1) && OnlyScribbles(steps)
  {
    steps := IdledTaken(s, ram, s1);
  }

  /** Map a new frame with this content writable at page v, or give it back. */
  method MapNew(k: Kernel, m: nat, v: nat, f: nat, flags: Entry, ghost s0: State, ghost s1: State, ghost page: Page)
    returns (ok: bool, ghost steps: seq<Step>)
    requires k.Valid() && m in k.st.mms && UserMm(s0, m) && m in k.view && v < LIMIT && f < LIMIT && flags.rw
    requires !flags.cow && flags.owned
    requires Steady(s0, k.ft.ram) && Idled(s0, k.ft.ram, s1) && f in k.ft.ram && f !in s0.refs && f != v
    requires k.S() == Alloc(s1, f, page)
    modifies k`view, k.st, k.ft
    ensures k.Valid() && SameMms(old(k.st.mms), k.st.mms) && k.st.mms.Keys == old(k.st.mms.Keys)
    ensures ok ==> Renewed(s0, k.ft.ram, steps, k.S(), m, v, page)
    ensures !ok ==> Taken(s0, k.ft.ram, steps, k.S()) && OnlyScribbles(steps) && |k.st.heap| == 0
  {
    hide TableStore.Valid, FrameTable.Valid, Views, Steady, Taken, Renewed, Remap, OnlyScribbles, Idled, SameMms;
    ok := k.MapPage(m, v, f, flags);
    if ok {
      steps := FreshTaken(s0, k.ft.ram, s1, m, v, f, page);
    } else {
      k.ft.Release(f);
      steps := ReturnTaken(s0, k.ft.ram, s1, f, page);
    }
  }

  /** Fork one page by copying it now: the primary stack, and writable pages that hold
      no frame reference. */
  method ForkLeafCopy(k: Kernel, p: nat, c: nat, v: nat, pte: Entry) returns (ok: bool, ghost steps: seq<Step>)
    requires ForkPair(k, p, c, v, pte) && (pte.owned || pte.ppn != v) && (pte.rw || pte.cow)
    modifies k`view, k`shm, k.st, k.ft
    ensures k.Valid() && SameMms(old(k.st.mms), k.st.mms) && k.st.mms.Keys == old(k.st.mms.Keys)
    ensures ok ==> Renewed(old(k.S()), k.ft.ram, steps, k.S(), c, v, At(old(k.ft.mem), pte.ppn))
    ensures !ok ==> Taken(old(k.S()), k.ft.ram, steps, k.S()) && OnlyScribbles(steps)
    ensures !ok ==> |k.st.heap| == 0 || NoFrame(k, v)
  {
    hide TableStore.Valid, FrameTable.Valid, Views, Steady, Taken, Renewed, Remap, OnlyScribbles, Idled;
    ghost var s0 := k.S();
    CopySource(s0, k.ft.ram, p, v);
    ghost var s1;
    var r;
    r, s1 := CopyToNew(k, v, pte.ppn);
    if r.None? {
      steps := IdledOnly(s0, k.ft.ram, s1);
      return false, steps;
    }
    ok, steps := MapNew(k, c, v, r.value, ForkFlags(pte).(cow := false, owned := true, rw := true), s0, s1,
                        At(s0.mem, pte.ppn));
  }

  // ---------------------------------------------------------- shared mappings

  lemma ForkShmTaken(s: State, ram: set<nat>, p: nat, c: nat, v: nat, l: Leaf, s1: State, s2: State)
    requires Steady(s, ram) && CanShm(s, p, c, v) && s.view[p][v] == l && s1 == Retain(s, l.ppn)
    requires s2 == Remap(s1, c, v, Leaf(l.ppn, l.rw, false, l.owned || l.ppn in s.refs))
    ensures Taken(s, ram, [SShm(p, c, v)], s2.(shm := s2.shm + {l.ppn}))
  {
    var leaf := Leaf(l.ppn, l.rw, false, l.owned || l.ppn in s.refs);
    RemapFree(s1, c, v, leaf);
    assert ForkShm(s, p, c, v) == s2.(shm := s2.shm + {l.ppn});
    hide ForkShm, Remap, Install;
    TakenOne(s, ram, SShm(p, c, v));
  }

  /** Fork one page of a MAP_SHARED area: the child maps the same frame. */
  method ForkLeafShm(k: Kernel, p: nat, c: nat, v: nat, pte: Entry) returns (ok: bool, ghost steps: seq<Step>)
    requires ForkPair(k, p, c, v, pte) && !Cached(k.S(), pte.ppn)
    modifies k`view, k`shm, k.st, k.ft
    ensures k.Valid() && SameMms(old(k.st.mms), k.st.mms) && k.st.mms.Keys == old(k.st.mms.Keys)
    ensures Taken(old(k.S()), k.ft.ram, steps, k.S()) && steps == if ok then [SShm(p, c, v)] else []
    ensures !ok ==> |k.st.heap| == 0
  {
    hide TableStore.Valid, FrameTable.Valid, Views, Steady, Taken, Remap, SameMms, Cached;
    ghost var s0 := k.S();
    var kept := k.ft.Retain(pte.ppn);
    ghost var s1 := k.S();
    if pte.owned {
      OwnedLive(s0, k.ft.ram, p, v);
      assert kept == 0;
    }
    var flags := ForkFlags(pte).(cow := false, owned := pte.owned || kept == 0);
    ok := k.MapPage(c, v, pte.ppn, flags);
    if !ok {
      if kept == 0 {
        k.ft.Release(pte.ppn);
        RetainRelease(s0, k.ft.ram, pte.ppn);
      }
      TakenNone(s0, k.ft.ram);
      steps := [];
      return;
    }
    ForkShmTaken(s0, k.ft.ram, p, c, v, ToLeaf(pte), s1, k.S());
    k.shm := k.shm + {pte.ppn};
    steps := [SShm(p, c, v)];
  }

  // ------------------------------------------------------------- one leaf

  /** What forking page v of p into c did: the child reads the parent's bytes there. */
  ghost predicate LeafForked(s: State, ram: set<nat>, steps: seq<Step>, s': State, p: nat, c: nat, v: nat, shared: bool)
    requires Has(s, p, v)
  {
    Taken(s, ram, steps, s') &&
    if shared then steps == [SShm(p, c, v)]
    else if Copies(s.view[p][v], v) then Renewed(s, ram, steps, s', c, v, Reads(s, p, v))
    else steps == [SShare(p, c, v)]
  }

  /** Fork copies at once instead of sharing. */
  predicate Copies(l: Leaf, v: nat) { Writable(l) && (!l.owned || PrimaryStack(v)) }

  /** mm_fork_copy_user_leaf, for a page that is not an unowned identity page of a
      private mapping. */
  method ForkLeaf(k: Kernel, p: nat, c: nat, v: nat, pte: Entry, shared: bool)
    returns (ok: bool, ghost steps: seq<Step>)
    requires ForkPair(k, p, c, v, pte)
    requires if shared then !Cached(k.S(), pte.ppn) else pte.owned || pte.ppn != v
    modifies k`view, k`shm, k.st, k.ft
    ensures k.Valid() && SameMms(old(k.st.mms), k.st.mms) && k.st.mms.Keys == old(k.st.mms.Keys)
    ensures Taken(old(k.S()), k.ft.ram, steps, k.S())
    ensures ok ==> LeafForked(old(k.S()), k.ft.ram, steps, k.S(), p, c, v, shared)
    ensures ok ==> Has(k.S(), c, v) && GrantedAs(old(k.view[p][v]), k.view[c][v], shared)
    ensures ok ==> Has(k.S(), p, v) && (k.view[p][v].rw || k.view[p][v].cow <==> pte.rw || pte.cow)
    ensures !ok ==> OnlyScribbles(steps) && (|k.st.heap| == 0 || NoFrame(k, v))
  {
    hide TableStore.Valid, FrameTable.Valid, Views, Steady, Taken, SameMms, Cached, Renewed, GrantedAs;
    ghost var s0 := k.S();
    if shared {
      ok, steps := ForkLeafShm(k, p, c, v, pte);
    } else if (pte.rw || pte.cow) && (!pte.owned || PrimaryStack(v)) {
      ok, steps := ForkLeafCopy(k, p, c, v, pte);
      if ok {
        RenewedTaken(s0, k.ft.ram, steps, k.S(), c, v, At(s0.mem, pte.ppn));
      }
    } else {
      ok, steps := ForkLeafShare(k, p, c, v, pte);
    }
    if ok { ForkedGrants(s0, k.ft.ram, steps, k.S(), p, c, v, shared); }
  }

  lemma {:induction false} RenewedOthers(s: State, ram: set<nat>, steps: seq<Step>, s': State, m: nat, v: nat,
                                         page: Page, n: nat)
    requires Renewed(s, ram, steps, s', m, v, page) && n != m && n in s.view
    ensures n in s'.view && s'.view[n] == s.view[n]
    decreases |steps|
  {
    StepSteady(s, ram, steps[0]);
    var t := After(s, ram, steps[0]);
    if |steps| == 1 {
      assert steps[1..] == [] && Runs(t, ram, []) && EndOf(t, ram, []) == t;
    } else {
      assert Renewed(t, ram, steps[1..], s', m, v, page);
      RenewedOthers(t, ram, steps[1..], s', m, v, page, n);
    }
  }

  /** Forking page v leaves the parent's other leaves as they are. */
  lemma ForkedParent(s: State, ram: set<nat>, steps: seq<Step>, s': State, p: nat, c: nat, v: nat, shared: bool, w: nat)
    requires Has(s, p, v) && LeafForked(s, ram, steps, s', p, c, v, shared) && p != c && w != v && Has(s, p, w)
    ensures Has(s', p, w) && s'.view[p][w] == s.view[p][w]
  {
    if !shared && Copies(s.view[p][v], v) {
      RenewedOthers(s, ram, steps, s', c, v, Reads(s, p, v), p);
    } else {
      var step := steps[0];
      StepSteady(s, ram, step);
      var t := After(s, ram, step);
      assert steps[1..] == [] && Runs(t, ram, []) && EndOf(t, ram, []) == t;
      if !shared { ForkShareOrder(s, p, c, v); }
    }
  }

  /** What the child may write, and that the parent may write as before. */
  lemma ForkedGrants(s: State, ram: set<nat>, steps: seq<Step>, s': State, p: nat, c: nat, v: nat, shared: bool)
    requires Has(s, p, v) && LeafForked(s, ram, steps, s', p, c, v, shared) && p != c
    ensures Has(s', c, v) && GrantedAs(s.view[p][v], s'.view[c][v], shared)
    ensures SamePage(s, s', p, v)
  {
    if !shared && Copies(s.view[p][v], v) {
      RenewedPage(s, ram, steps, s', c, v, Reads(s, p, v));
      hide Renewed, Taken, Copies;
      QuietRunElsewhere(s, ram, steps, s', c, v);
    } else {
      var step := steps[0];
      StepSteady(s, ram, step);
      var t := After(s, ram, step);
      assert steps[1..] == [] && Runs(t, ram, []) && EndOf(t, ram, []) == t;
      StepKeepsPage(s, ram, step, p, v);
      if !shared { ForkShareOrder(s, p, c, v); }
    }
  }

  lemma RenewedTaken(s: State, ram: set<nat>, steps: seq<Step>, s': State, m: nat, v: nat, page: Page)
    requires Renewed(s, ram, steps, s', m, v, page)
    ensures Taken(s, ram, steps, s')
  {
  }

  /** After a renewal the page is writable, owned and holds the given bytes. */
  lemma {:induction false} RenewedPage(s: State, ram: set<nat>, steps: seq<Step>, s': State, m: nat, v: nat, page: Page)
    requires Renewed(s, ram, steps, s', m, v, page)
    ensures Has(s', m, v) && s'.view[m][v].owned && s'.view[m][v].rw && !s'.view[m][v].cow && Reads(s', m, v) == page
    ensures s'.view[m][v].ppn != v
    ensures forall j :: 0 <= j < |steps| ==> Quiet(steps[j], m, v) && !UsesShm(steps[j]) && !steps[j].SShare?
    decreases |steps|
  {
    StepSteady(s, ram, steps[0]);
    var t := After(s, ram, steps[0]);
    if |steps| == 1 {
      FreshSteady(s, ram, m, v, steps[0].f, page, true);
      assert steps[1..] == [] && Runs(t, ram, []) && EndOf(t, ram, []) == t;
    } else {
      assert Renewed(t, ram, steps[1..], s', m, v, page);
      RenewedPage(t, ram, steps[1..], s', m, v, page);
      forall j | 0 <= j < |steps|
        ensures Quiet(steps[j], m, v) && !UsesShm(steps[j]) && !steps[j].SShare?
      {
        assert j > 0 ==> steps[j] == steps[1..][j - 1];
      }
    }
  }

  // ----------------------------------------------------- copy-on-write faults

  /** The flags of a private replacement: RW | US | SOFT_OWNED. */
  const PRIVATE_FLAGS: Entry := NIL.(rw := true, us := true, owned := true)

  lemma DropFresh(s: State, ram: set<nat>, s1: State, m: nat, v: nat, f: nat, page: Page, s2: State)
    returns (steps: seq<Step>)
    requires Steady(s, ram) && Idled(s, ram, s1) && f in ram && f !in s.refs && UserMm(s, m) && v < LIMIT && f != v
    requires m in s1.view
    requires s2 == Drop(Install(Alloc(s1, f, page), m, v, Some(Leaf(f, true, false, true))), LeafIn(s, m, v))
    ensures Renewed(s, ram, steps, s2, m, v, page)
  {
    var pre := IdledTaken(s, ram, s1);
    var step := SFresh(m, v, f, page, true);
    TakenOne(s1, ram, step);
    TakenThen(s, ram, pre, s1, [step], Fresh(s1, m, v, f, page, true));
    steps := pre + [step];
  }

  /** Put a new frame in place of a leaf and drop the leaf's reference, as
      mm_cow_fault_page and mm_make_private_range do. */
  method ReplaceLeaf(k: Kernel, m: nat, v: nat, was: Option<Leaf>, f: nat, ghost s0: State, ghost s1: State,
                     ghost page: Page)
    returns (ok: bool, ghost steps: seq<Step>)
    requires k.Valid() && m in k.st.mms && UserMm(s0, m) && m in k.view && v < LIMIT && f < LIMIT
    requires was == LeafIn(s0, m, v)
    requires Steady(s0, k.ft.ram) && Idled(s0, k.ft.ram, s1) && f in k.ft.ram && f !in s0.refs && f != v
    requires k.S() == Alloc(s1, f, page)
    modifies k`view, k.st, k.ft
    ensures k.Valid() && SameMms(old(k.st.mms), k.st.mms) && k.st.mms.Keys == old(k.st.mms.Keys)
    ensures ok ==> Renewed(s0, k.ft.ram, steps, k.S(), m, v, page)
    ensures ok ==> LeafAt(k.st.ts, k.st.mms[m].root, 4, v) == Some(SharedAwareLeaf(v, f, PRIVATE_FLAGS)) &&
                   PathAllows(k.st.ts, k.st.mms[m].root, 4, v, true)
    ensures ok ==> k.ft.mem == old(k.ft.mem) && OwnsFrame(LeafIn(k.S(), m, v), f)
    ensures !ok ==> Taken(s0, k.ft.ram, steps, k.S()) && OnlyScribbles(steps)
    ensures !ok && was.Some? ==> |k.st.heap| == 0 || !Has(k.S(), KERNEL, v)
    ensures !ok && was.None? ==> !Has(k.S(), m, v)
  {
    hide TableStore.Valid, FrameTable.Valid, Views, Steady, Taken, Renewed, OnlyScribbles, Idled, LeafAt, PathAllows;
    var _ := IdledTaken(s0, k.ft.ram, s1);
    var rc := k.MapShared(m, v, f, PRIVATE_FLAGS);
    ok := rc == 0;
    if !ok {
      k.ft.Release(f);
      steps := ReturnTaken(s0, k.ft.ram, s1, f, page);
      return;
    }
    if was.Some? && was.value.owned {
      k.ft.Release(was.value.ppn);
    }
    steps := DropFresh(s0, k.ft.ram, s1, m, v, f, page, k.S());
  }

  /** A copy-on-write fault that needs its own copy. */
  method CowCopy(k: Kernel, m: nat, v: nat, pte: Entry) returns (ok: bool, ghost steps: seq<Step>)
    requires k.Valid() && Steady(k.S(), k.ft.ram) && m in k.st.mms && UserMm(k.S(), m) && v < LIMIT
    requires v in k.view[m] && k.view[m][v] == ToLeaf(pte) && (pte.owned || pte.ppn != v)
    modifies k`view, k`shm, k.st, k.ft
    ensures k.Valid() && SameMms(old(k.st.mms), k.st.mms) && k.st.mms.Keys == old(k.st.mms.Keys)
    ensures ok ==> Renewed(old(k.S()), k.ft.ram, steps, k.S(), m, v, At(old(k.ft.mem), pte.ppn)) &&
                   PathAllows(k.st.ts, k.st.mms[m].root, 4, v, true)
    ensures !ok ==> Taken(old(k.S()), k.ft.ram, steps, k.S()) && OnlyScribbles(steps) && Short(k, v)
  {
    hide TableStore.Valid, FrameTable.Valid, Views, Steady, Taken, Renewed, OnlyScribbles, Idled, LeafAt, PathAllows;
    ghost var s0 := k.S();
    CopySource(s0, k.ft.ram, m, v);
    ghost var s1;
    var r;
    r, s1 := CopyToNew(k, v, pte.ppn);
    if r.None? {
      steps := IdledOnly(s0, k.ft.ram, s1);
      return false, steps;
    }
    ok, steps := ReplaceLeaf(k, m, v, Some(ToLeaf(pte)), r.value, s0, s1, At(s0.mem, pte.ppn));
  }

  /** A copy-on-write fault on a frame with no other user: write access comes back. */
  method CowReuse(k: Kernel, m: nat, v: nat, pte: Entry) returns (ok: bool, ghost steps: seq<Step>)
    requires k.Valid() && Steady(k.S(), k.ft.ram) && m in k.st.mms && UserMm(k.S(), m) && v < LIMIT
    requires v in k.view[m] && k.view[m][v] == ToLeaf(pte) && pte.owned && pte.cow && k.ft.RefCount(pte.ppn) == 1
    requires pte.ppn < LIMIT
    modifies k`view, k.st
    ensures k.Valid() && SameMms(old(k.st.mms), k.st.mms) && k.st.mms.Keys == old(k.st.mms.Keys)
    ensures Taken(old(k.S()), k.ft.ram, steps, k.S()) && steps == if ok then [SReuse(m, v)] else []
    ensures !ok ==> Short(k, v)
    ensures ok ==> PathAllows(k.st.ts, k.st.mms[m].root, 4, v, true)
  {
    hide TableStore.Valid, FrameTable.Valid, Views, Steady, Taken, LeafAt, PathAllows;
    ghost var s0 := k.S();
    var rc := k.MapShared(m, v, pte.ppn, PRIVATE_FLAGS);
    ok := rc == 0;
    if ok {
      TakenOne(s0, k.ft.ram, SReuse(m, v));
      steps := [SReuse(m, v)];
    } else {
      TakenNone(s0, k.ft.ram);
      steps := [];
    }
  }

  /** A write fault in a MAP_SHARED area: the leaf becomes writable, the frame stays. */
  method CowShared(k: Kernel, m: nat, v: nat, pte: Entry) returns (ok: bool, ghost steps: seq<Step>)
    requires k.Valid() && Steady(k.S(), k.ft.ram) && m in k.st.mms && UserMm(k.S(), m) && v < LIMIT
    requires pte.ppn < 0x100_0000_0000 && (pte.owned ==> pte.ppn < LIMIT)
    requires v in k.view[m] && k.view[m][v] == ToLeaf(pte) && !Cached(k.S(), pte.ppn)
    modifies k`view, k`shm, k.st, k.ft
    ensures k.Valid() && SameMms(old(k.st.mms), k.st.mms) && k.st.mms.Keys == old(k.st.mms.Keys)
    ensures Taken(old(k.S()), k.ft.ram, steps, k.S()) && steps == if ok then [SShmFault(m, v)] else []
    ensures !ok ==> Short(k, v)
  {
    hide TableStore.Valid, FrameTable.Valid, Views, Steady, Taken, Cached;
    ghost var s0 := k.S();
    ok := k.MapPage(m, v, pte.ppn, ForkFlags(pte).(cow := false, rw := true));
    if ok {
      k.shm := k.shm + {pte.ppn};
      TakenOne(s0, k.ft.ram, SShmFault(m, v));
      steps := [SShmFault(m, v)];
    } else {
      TakenNone(s0, k.ft.ram);
      steps := [];
    }
  }

  /** A huge leaf over v stands in a table of m's own. */
  ghost predicate HugeOwned(ts: Tables, info: Infos, m: nat, id: Id, lvl: nat, v: nat)
    requires 1 <= lvl <= 4
    decreases lvl, v
  {
    id in ts && |ts[id]| == 512 ==>
      (IsHuge(lvl, ts[id][Idx(lvl, v)]) ==> id in info && info[id].owner == m) &&
      (lvl > 1 && IsTable(lvl, ts[id][Idx(lvl, v)]) ==> HugeOwned(ts, info, m, ts[id][Idx(lvl, v)].ppn, lvl - 1, v))
  }

  lemma {:induction false} NoHuge(ts: Tables, info: Infos, m: nat, id: Id, lvl: nat, v: nat)
    requires 1 <= lvl <= 4 && !HugeAt(ts, id, lvl, v)
    ensures HugeOwned(ts, info, m, id, lvl, v)
    decreases lvl
  {
    if id in ts && |ts[id]| == 512 && lvl > 1 && IsTable(lvl, ts[id][Idx(lvl, v)]) {
      NoHuge(ts, info, m, ts[id][Idx(lvl, v)].ppn, lvl - 1, v);
    }
  }

  /** A huge leaf over v met in table id is broken up, if it stands in a table of m's own. */
  method SplitLevel(st: TableStore, m: nat, id: Id, lvl: nat, v: nat) returns (ok: bool)
    requires st.Valid() && m in st.mms && 2 <= lvl <= 3 && Met(st.ts, st.info, m, id, v, 4 - lvl)
    requires HugeOwned(st.ts, st.info, m, id, lvl, v)
    modifies st
    ensures st.Valid() && Extends(old(st.info), st.info) && SameMms(old(st.mms), st.mms)
    ensures SameLeaves(old(st.ts), st.ts, old(st.info)) && st.mms.Keys == old(st.mms.Keys)
    ensures OnlyTable(old(st.ts), st.ts, id) && Met(st.ts, st.info, m, id, v, 4 - lvl)
    ensures ok ==> !IsHuge(lvl, st.ts[id][Idx(lvl, v)])
    ensures old(!IsHuge(lvl, st.ts[id][Idx(lvl, v)])) ==> ok && st.ts == old(st.ts)
    ensures !ok ==> |st.heap| == 0
    ensures ok && IsTable(lvl, st.ts[id][Idx(lvl, v)]) ==>
              Met(st.ts, st.info, m, st.ts[id][Idx(lvl, v)].ppn, v, 5 - lvl) &&
              HugeOwned(st.ts, st.info, m, st.ts[id][Idx(lvl, v)].ppn, lvl - 1, v)
  {
    ok := true;
    if IsHuge(lvl, st.ts[id][Idx(lvl, v)]) {
      ok := st.BreakHuge(m, id, lvl, v);
    }
    if IsTable(lvl, st.ts[id][Idx(lvl, v)]) {
      MetNext(st.ts, st.info, m, id, lvl, v);
    }
  }

  lemma RootMet(st: TableStore, m: nat, v: nat)
    requires st.Valid() && m in st.mms && HugeOwned(st.ts, st.info, m, st.mms[m].root, 4, v)
    ensures Met(st.ts, st.info, m, st.mms[m].root, v, 0)
    ensures var e := st.ts[st.mms[m].root][Idx(4, v)];
            IsTable(4, e) ==> Met(st.ts, st.info, m, e.ppn, v, 1) && HugeOwned(st.ts, st.info, m, e.ppn, 3, v)
  {
    assert MmOk(st.ts, st.info, m, st.mms[m]);
    if IsTable(4, st.ts[st.mms[m].root][Idx(4, v)]) {
      MetNext(st.ts, st.info, m, st.mms[m].root, 4, v);
    }
  }

  /** Tables at different depths are different, so the one above is kept. */
  lemma UpperKept(ts: Tables, info: Infos, st: TableStore, m: nat, x: Id, id: Id, v: nat, k: nat, j: nat)
    requires k < j <= 3 && Met(ts, info, m, x, v, k) && Met(ts, info, m, id, v, j)
    requires st.Valid() && Extends(info, st.info) && OnlyTable(ts, st.ts, id)
    ensures x in st.ts && st.ts[x] == ts[x]
  {
    assert |Path(v, k)| != |Path(v, j)|;
    assert x in st.info;
  }

  /** A walk that ends in a 4 KiB leaf passes three tables. */
  lemma LeafPath(ts: Tables, root: Id, v: nat)
    requires LeafAt(ts, root, 4, v).Some? && !HugeAt(ts, root, 4, v)
    ensures root in ts && |ts[root]| == 512 && IsTable(4, ts[root][Idx(4, v)])
    ensures var l3 := ts[root][Idx(4, v)].ppn; l3 in ts && |ts[l3]| == 512 && IsTable(3, ts[l3][Idx(3, v)])
    ensures var l3 := ts[root][Idx(4, v)].ppn; var l2 := ts[l3][Idx(3, v)].ppn;
            l2 in ts && |ts[l2]| == 512 && IsTable(2, ts[l2][Idx(2, v)])
  {
    var l3 := ts[root][Idx(4, v)].ppn;
    assert LeafAt(ts, l3, 3, v).Some? && !HugeAt(ts, l3, 3, v);
    var l2 := ts[l3][Idx(3, v)].ppn;
    assert LeafAt(ts, l2, 2, v).Some? && !HugeAt(ts, l2, 2, v);
  }

  lemma NotHuge(ts: Tables, root: Id, l3: Id, v: nat)
    requires root in ts && |ts[root]| == 512 && IsTable(4, ts[root][Idx(4, v)]) && ts[root][Idx(4, v)].ppn == l3
    requires l3 in ts && |ts[l3]| == 512 && IsTable(3, ts[l3][Idx(3, v)])
    requires var l2 := ts[l3][Idx(3, v)].ppn; l2 in ts && |ts[l2]| == 512 && !IsHuge(2, ts[l2][Idx(2, v)])
    ensures !HugeAt(ts, root, 4, v)
  {
    assert !HugeAt(ts, ts[l3][Idx(3, v)].ppn, 2, v);
    assert !HugeAt(ts, l3, 3, v);
  }

  lemma WalkOn(ts: Tables, id: Id, lvl: nat, v: nat)
    requires 2 <= lvl <= 4 && id in ts && |ts[id]| == 512 && IsTable(lvl, ts[id][Idx(lvl, v)])
    ensures LeafAt(ts, id, lvl, v) == LeafAt(ts, ts[id][Idx(lvl, v)].ppn, lvl - 1, v)
  {
  }

  lemma WalkEnds(ts: Tables, id: Id, lvl: nat, v: nat)
    requires 1 <= lvl <= 4 && id in ts && |ts[id]| == 512 && !ts[id][Idx(lvl, v)].present
    ensures LeafAt(ts, id, lvl, v) == None
  {
  }

  lemma LeafThere(k: Kernel, m: nat, v: nat)
    requires k.Valid() && m in k.st.mms && v < LIMIT && Has(k.S(), m, v)
    ensures LeafAt(k.st.ts, k.st.mms[m].root, 4, v).Some?
  {
    LeafInView(k.st, m, v);
  }

  /** mm_split_huge_leaf_for_va: no address space sees a difference. */
  method SplitHuge(k: Kernel, m: nat, v: nat) returns (ok: bool)
    requires k.Valid() && m in k.st.mms && HugeOwned(k.st.ts, k.st.info, m, k.st.mms[m].root, 4, v)
    modifies k.st
    ensures k.Valid() && SameMms(old(k.st.mms), k.st.mms) && k.st.mms.Keys == old(k.st.mms.Keys) && k.S() == old(k.S())
    ensures ok ==> !HugeAt(k.st.ts, k.st.mms[m].root, 4, v)
    ensures !ok ==> old(HugeAt(k.st.ts, k.st.mms[m].root, 4, v)) || old(LeafAt(k.st.ts, k.st.mms[m].root, 4, v)) == None
    ensures !ok ==> |k.st.heap| == 0 || LeafAt(k.st.ts, k.st.mms[m].root, 4, v) == None
  {
    hide Wf, TableStore.Valid, Views, SameLeaves, Extends, HugeOwned, HugeAt, Rooted, LeafAt;
    var st := k.st;
    if !HugeAt(st.ts, st.mms[m].root, 4, v) && LeafAt(st.ts, st.mms[m].root, 4, v).Some? {
      LeafPath(st.ts, st.mms[m].root, v);
    }
    RootsOk(st);
    RootMet(st, m, v);
    ghost var root := st.mms[m].root;
    if !IsTable(4, st.ts[st.mms[m].root][Idx(4, v)]) {
      WalkEnds(st.ts, st.mms[m].root, 4, v);
      return false;
    }
    var l3 := st.ts[st.mms[m].root][Idx(4, v)].ppn;
    ok := SplitLevel(st, m, l3, 3, v);
    UpperKept(old(st.ts), old(st.info), st, m, root, l3, v, 0, 1);
    ViewsSame(old(st.ts), st.ts, old(st.info), old(st.mms), st.mms, st.kroot);
    WalkOn(st.ts, root, 4, v);
    if !ok || !IsTable(3, st.ts[l3][Idx(3, v)]) {
      if ok { WalkEnds(st.ts, l3, 3, v); }
      return false;
    }
    WalkOn(st.ts, l3, 3, v);
    RootsOk(st);
    var l2 := st.ts[l3][Idx(3, v)].ppn;
    if !st.ts[l2][Idx(2, v)].present {
      WalkEnds(st.ts, l2, 2, v);
      return false;
    }
    ghost var ts1, info1, mms1 := st.ts, st.info, st.mms;
    ok := SplitLevel(st, m, l2, 2, v);
    UpperKept(ts1, info1, st, m, l3, l2, v, 1, 2);
    UpperKept(ts1, info1, st, m, root, l2, v, 0, 2);
    ViewsSame(ts1, st.ts, info1, mms1, st.mms, st.kroot);
    if ok {
      NotHuge(st.ts, root, l3, v);
    }
  }

  /** The fault at a 4 KiB leaf. */
  method CowLeafFault(k: Kernel, m: nat, v: nat, shared: bool, pte: Entry) returns (rc: int, ghost steps: seq<Step>)
    requires k.Valid() && Steady(k.S(), k.ft.ram) && m in k.st.mms && 1 <= v < LIMIT && UserMm(k.S(), m)
    requires Private(k.S(), m, v) && k.view[m][v] == ToLeaf(pte) && pte.ppn < 0x100_0000_0000
    requires (pte.owned ==> pte.ppn < LIMIT) && (pte.owned || pte.cow ==> pte.us)
    requires shared ==> !Cached(k.S(), pte.ppn)
    modifies k`view, k`shm, k.st, k.ft
    ensures k.Valid() && SameMms(old(k.st.mms), k.st.mms) && k.st.mms.Keys == old(k.st.mms.Keys)
    ensures Taken(old(k.S()), k.ft.ram, steps, k.S()) && (forall j :: 0 <= j < |steps| ==> Quiet(steps[j], m, v))
    ensures rc in {0, -1, -2} && (rc != 0 ==> OnlyScribbles(steps))
    ensures rc == -2 <==> !shared && !old(CowLeaf(k, m, v))
    ensures rc == -1 ==> Short(k, v)
    ensures rc == 0 ==> Has(k.S(), m, v) && Reads(k.S(), m, v) == old(Reads(k.S(), m, v)) &&
                        k.view[m][v].rw && !k.view[m][v].cow
    ensures rc == 0 && !shared ==> k.view[m][v].owned && PathAllows(k.st.ts, k.st.mms[m].root, 4, v, true)
    ensures !shared ==> forall j :: 0 <= j < |steps| ==> !UsesShm(steps[j]) && !steps[j].SShare?
  {
    hide TableStore.Valid, FrameTable.Valid, Views, Steady, Taken, Cached, HugeAt, Renewed, PathAllows, LeafAt;
    ghost var s0 := k.S();
    TakenNone(s0, k.ft.ram);
    steps := [];
    var ok;
    if shared {
      ok, steps := CowShared(k, m, v, pte);
      if ok {
        FaultPage(s0, k.ft.ram, SShmFault(m, v), k.S());
      }
    } else if !(pte.us && !pte.rw && pte.cow) {
      return -2, steps;
    } else if pte.owned && k.ft.RefCount(pte.ppn) == 1 {
      ok, steps := CowReuse(k, m, v, pte);
      if ok {
        FaultPage(s0, k.ft.ram, SReuse(m, v), k.S());
      }
    } else {
      ok, steps := CowCopy(k, m, v, pte);
      if ok {
        RenewedPage(s0, k.ft.ram, steps, k.S(), m, v, At(s0.mem, pte.ppn));
        RenewedTaken(s0, k.ft.ram, steps, k.S(), m, v, At(s0.mem, pte.ppn));
      }
    }
    rc := if ok then 0 else -1;
  }

  /** mm_cow_fault_page. shared says whether the page lies in a MAP_SHARED area. */
  method CowFault(k: Kernel, m: nat, v: nat, shared: bool) returns (rc: int, ghost steps: seq<Step>)
    requires k.Valid() && Steady(k.S(), k.ft.ram) && m in k.st.mms
    requires HugeOwned(k.st.ts, k.st.info, m, k.st.mms[m].root, 4, v)
    requires Has(k.S(), m, v) ==> Private(k.S(), m, v) && k.view[m][v].ppn < 0x100_0000_0000
    requires shared && Has(k.S(), m, v) ==> !Cached(k.S(), k.view[m][v].ppn)
    modifies k`view, k`shm, k.st, k.ft
    ensures k.Valid() && SameMms(old(k.st.mms), k.st.mms) && k.st.mms.Keys == old(k.st.mms.Keys)
    ensures Taken(old(k.S()), k.ft.ram, steps, k.S()) && (forall j :: 0 <= j < |steps| ==> Quiet(steps[j], m, v))
    ensures rc in {0, -1, -2} && (rc != 0 ==> OnlyScribbles(steps))
    ensures 1 <= v < LIMIT ==> (rc == -2 ==> !old(Has(k.S(), m, v)) || (!shared && !old(CowLeaf(k, m, v))))
    ensures 1 <= v < LIMIT && (!old(Has(k.S(), m, v)) || (!shared && !old(CowLeaf(k, m, v)))) ==>
              rc == -2 || (rc == -1 && old(HugeAt(k.st.ts, k.st.mms[m].root, 4, v)))
    ensures 1 <= v < LIMIT && rc == -1 ==> Short(k, v)
    ensures rc == 0 ==> old(Has(k.S(), m, v)) && Has(k.S(), m, v) && Reads(k.S(), m, v) == old(Reads(k.S(), m, v)) &&
                        k.view[m][v].rw && !k.view[m][v].cow
    ensures rc == 0 && !shared ==> k.view[m][v].owned && PathAllows(k.st.ts, k.st.mms[m].root, 4, v, true)
    ensures !shared ==> forall j :: 0 <= j < |steps| ==> !UsesShm(steps[j]) && !steps[j].SShare?
  {
    hide TableStore.Valid, FrameTable.Valid, Views, Steady, Taken, Cached;
    hide HugeAt, HugeOwned, Renewed, PathAllows, LeafAt;
    ghost var s0 := k.S();
    TakenNone(s0, k.ft.ram);
    steps := [];
    if v < 1 || v >= LIMIT {
      return -1, steps;
    }
    var o := ReadLeaf(k, m, v);
    if o.None? {
      return -2, steps;
    }
    if o.value.ps {
      var split := SplitHuge(k, m, v);
      LeafThere(k, m, v);
      if !split {
        return -1, steps;
      }
      o := ReadLeaf(k, m, v);
    }
    rc, steps := CowLeafFault(k, m, v, shared, o.value);
  }

  /** Both in-place faults leave the same bytes under a writable leaf. */
  lemma FaultPage(s: State, ram: set<nat>, step: Step, s': State)
    requires (step.SShmFault? || step.SReuse?) && Taken(s, ram, [step], s')
    ensures Has(s, step.m, step.v) && Has(s', step.m, step.v) && Reads(s', step.m, step.v) == Reads(s, step.m, step.v)
    ensures s'.view[step.m][step.v].rw && !s'.view[step.m][step.v].cow
    ensures (step.SReuse? ==> s'.view[step.m][step.v].owned)
  {
    StepSteady(s, ram, step);
    var t := After(s, ram, step);
    assert [step][1..] == [] && Runs(t, ram, []) && EndOf(t, ram, []) == t;
    assert EndOf(s, ram, [step]) == t;
  }

  /** A write-protected copy-on-write leaf. */
  ghost predicate CowLeaf(k: Kernel, m: nat, v: nat)
    reads k
  {
    m in k.view && v in k.view[m] && k.view[m][v].cow && !k.view[m][v].rw
  }

  /** mm_va_leaf_entry_direct. */
  method ReadLeaf(k: Kernel, m: nat, v: nat) returns (o: Option<Entry>)
    requires k.Valid() && m in k.st.mms && v < LIMIT
    ensures UserMm(k.S(), m) && (o.Some? <==> v in k.view[m]) && o == LeafAt(k.st.ts, k.st.mms[m].root, 4, v)
    ensures o.Some? ==> k.view[m][v] == ToLeaf(o.value) && (o.value.owned ==> o.value.ppn < LIMIT)
    ensures o.Some? && (o.value.owned || o.value.cow) ==> o.value.us
  {
    o := LeafAt(k.st.ts, k.st.mms[m].root, 4, v);
    LeafInView(k.st, m, v);
    assert MmOk(k.st.ts, k.st.info, m, k.st.mms[m]);
    LeafFacts(k.st.ts, k.st.info, m, k.st.mms[m].root, 4, v);
  }

  lemma EntryFacts(ts: Tables, info: Infos, id: Id, lvl: nat, i: nat)
    requires Wf(ts, info) && id in ts && id in info && i < |ts[id]| && lvl == Level(info[id])
    ensures var e := ts[id][i];
            e.present && !IsTable(lvl, e) ==> (e.owned ==> lvl == 1 && e.ppn < LIMIT) && (e.owned || e.cow ==> e.us)
  {
    assert WfTable(ts, info, id);
    assert WfEntry(info, id, i, ts[id][i]);
  }

  lemma {:induction false} LeafFacts(ts: Tables, info: Infos, m: nat, id: Id, lvl: nat, v: nat)
    requires Wf(ts, info) && 1 <= lvl <= 4 && Met(ts, info, m, id, v, 4 - lvl)
    ensures var o := LeafAt(ts, id, lvl, v);
            o.Some? ==> (o.value.owned ==> o.value.ppn < LIMIT) && (o.value.owned || o.value.cow ==> o.value.us)
    decreases lvl
  {
    hide Wf, WfEntry;
    var e := ts[id][Idx(lvl, v)];
    EntryFacts(ts, info, id, lvl, Idx(lvl, v));
    if IsTable(lvl, e) {
      MetNext(ts, info, m, id, lvl, v);
      LeafFacts(ts, info, m, e.ppn, lvl - 1, v);
      assert LeafAt(ts, id, lvl, v) == LeafAt(ts, e.ppn, lvl - 1, v);
    }
  }

  // -------------------------------------------------------------- user writes

  lemma {:induction false} AllowsWrite(ts: Tables, id: Id, lvl: nat, v: nat)
    requires 1 <= lvl <= 4 && PathAllows(ts, id, lvl, v, true)
    ensures LeafAt(ts, id, lvl, v).Some? && LeafAt(ts, id, lvl, v).value.rw
    decreases lvl
  {
    if lvl > 1 && !IsHuge(lvl, ts[id][Idx(lvl, v)]) {
      AllowsWrite(ts, ts[id][Idx(lvl, v)].ppn, lvl - 1, v);
    }
  }

  /** The store itself, when the hardware lets it through. */
  method StoreByte(k: Kernel, m: nat, v: nat, off: nat, b: nat)
    requires k.Valid() && Steady(k.S(), k.ft.ram) && m in k.st.mms && v < LIMIT && UserMm(k.S(), m) && Has(k.S(), m, v)
    requires k.view[m][v].owned && off < |Reads(k.S(), m, v)| && PathAllows(k.st.ts, k.st.mms[m].root, 4, v, true)
    modifies k.ft
    ensures k.Valid() && Taken(old(k.S()), k.ft.ram, [SWrite(m, v, old(Reads(k.S(), m, v))[off := b])], k.S())
  {
    hide TableStore.Valid, Views, Steady, Taken;
    ghost var s0 := k.S();
    AllowsWrite(k.st.ts, k.st.mms[m].root, 4, v);
    var o := ReadLeaf(k, m, v);
    LeafInView(k.st, m, v);
    k.ft.Poke(o.value.ppn, off, b);
    TakenOne(s0, k.ft.ram, SWrite(m, v, Reads(s0, m, v)[off := b]));
  }

  lemma WriteTaken(s: State, ram: set<nat>, m: nat, v: nat, page: Page, s': State)
    requires Taken(s, ram, [SWrite(m, v, page)], s') && s.view[m][v].ppn !in s.shm
    ensures Has(s', m, v) && Reads(s', m, v) == page
    ensures forall n, w :: Private(s, n, w) && !(n == m && w == v) ==>
              Has(s', n, w) && Reads(s', n, w) == Reads(s, n, w)
  {
    var step := SWrite(m, v, page);
    StepSteady(s, ram, step);
    var t := After(s, ram, step);
    assert [step][1..] == [] && Runs(t, ram, []) && EndOf(t, ram, []) == t;
    assert EndOf(s, ram, [step]) == t;
    WriteIsolated(s, ram, m, v, page);
  }

  /** Without shared-memory steps no frame becomes shared memory, and the frame of an
      owned page of m's is none either. */
  lemma {:induction false} NoNewShm(s: State, ram: set<nat>, steps: seq<Step>, s': State, m: nat, v: nat)
    requires Taken(s, ram, steps, s') && forall j :: 0 <= j < |steps| ==>
               !UsesShm(steps[j]) && Quiet(steps[j], m, v) && !steps[j].SShare?
    requires Has(s, m, v) && s.view[m][v].ppn !in s.shm
    ensures s'.shm <= s.shm && Has(s', m, v) && s'.view[m][v].ppn !in s'.shm
    decreases |steps|
  {
    if steps != [] {
      StepSteady(s, ram, steps[0]);
      QuietShm(s, ram, steps[0], m, v);
      NoNewShm(After(s, ram, steps[0]), ram, steps[1..], s', m, v);
    }
  }

  lemma QuietShm(s: State, ram: set<nat>, step: Step, m: nat, v: nat)
    requires Steady(s, ram) && Enabled(s, ram, step) && Quiet(step, m, v) && !UsesShm(step)
    requires Has(s, m, v) && s.view[m][v].ppn !in s.shm && !(step.SShare?)
    ensures var t := After(s, ram, step); t.shm <= s.shm && Has(t, m, v) && t.view[m][v].ppn !in t.shm
  {
  }

  /** A user store to a private page: through, or after its copy-on-write fault. The
      byte is changed for m alone; every other private page of every address space
      keeps its bytes. */
  method UserStore(k: Kernel, m: nat, v: nat, off: nat, b: nat) returns (ok: bool, ghost steps: seq<Step>)
    requires k.Valid() && Steady(k.S(), k.ft.ram) && m in k.st.mms && 1 <= v < LIMIT && Has(k.S(), m, v)
    requires k.view[m][v].owned && k.view[m][v].ppn !in k.shm && off < |Reads(k.S(), m, v)|
    modifies k`view, k`shm, k.st, k.ft
    ensures k.Valid() && Taken(old(k.S()), k.ft.ram, steps, k.S())
    ensures ok ==> Has(k.S(), m, v) && Reads(k.S(), m, v) == old(Reads(k.S(), m, v))[off := b]
    ensures !ok ==> Short(k, v) || !(old(CowLeaf(k, m, v)) || old(PathAllows(k.st.ts, k.st.mms[m].root, 4, v, true)))
    ensures forall n, w :: old(Private(k.S(), n, w)) && !(n == m && w == v) ==>
              Has(k.S(), n, w) && Reads(k.S(), n, w) == old(Reads(k.S(), n, w))
  {
    hide TableStore.Valid, FrameTable.Valid, Views, Steady, Taken, HugeAt, PathAllows, SameMms;
    ghost var s0 := k.S();
    ProtectReady(k, m, v);
    NoHuge(k.st.ts, k.st.info, m, k.st.mms[m].root, 4, v);
    OwnedLow(k, m, v);
    steps := [];
    TakenNone(s0, k.ft.ram);
    if !PathAllows(k.st.ts, k.st.mms[m].root, 4, v, true) {
      var rc;
      rc, steps := CowFault(k, m, v, false);
      forall n, w | Private(s0, n, w) && !(n == m && w == v)
        ensures Private(k.S(), n, w) && Reads(k.S(), n, w) == Reads(s0, n, w)
      {
        QuietRun(s0, k.ft.ram, steps, k.S(), m, v, n, w);
      }
      if rc != 0 {
        return false, steps;
      }
      NoNewShm(s0, k.ft.ram, steps, k.S(), m, v);
      TakenSteady(s0, k.ft.ram, steps, k.S());
    }
    ghost var s1 := k.S();
    ghost var page := Reads(s1, m, v)[off := b];
    StoreByte(k, m, v, off, b);
    WriteTaken(s1, k.ft.ram, m, v, page, k.S());
    TakenThen(s0, k.ft.ram, steps, s1, [SWrite(m, v, page)], k.S());
    steps := steps + [SWrite(m, v, page)];
    ok := true;
  }

  lemma OwnedLow(k: Kernel, m: nat, v: nat)
    requires k.Valid() && m in k.st.mms && v < LIMIT && m in k.view && v in k.view[m] && k.view[m][v].owned
    ensures k.view[m][v].ppn < LIMIT && UserMm(k.S(), m)
  {
    LeafInView(k.st, m, v);
    assert MmOk(k.st.ts, k.st.info, m, k.st.mms[m]);
    LeafFacts(k.st.ts, k.st.info, m, k.st.mms[m].root, 4, v);
  }
}
