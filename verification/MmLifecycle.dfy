/**
The operations of core/mm.c as steps on the sharing state, and what every run of
them keeps: references are conserved, a writable private frame has one reference,
and cached images hold the bytes they were registered with.
*/
module MmLifecycle {
  import opened Basics
  import opened PageTables
  import opened FrameSharing

  // ------------------------------------------------------------------- steps

  /** Give up the reference of a leaf that has been replaced or cleared. */
  function Drop(s: State, was: Option<Leaf>): State {
    if was.Some? && was.value.owned then Release(s, was.value.ppn) else s
  }

  /** mm_alloc: a clone of the kernel's tables. */
  function Born(s: State, m: nat): State
    requires KERNEL in s.view
  {
    s.(view := s.view[m := s.view[KERNEL]])
  }

  /** Put a new private frame with this content at page v, dropping what was there:
      an anonymous page, the copy of a copy-on-write fault, the eager copy of fork, or
      a page of mm_make_private_range. */
  function Fresh(s: State, m: nat, v: nat, f: nat, page: Page, rw: bool): State
    requires m in s.view
  {
    Drop(Install(Alloc(s, f, page), m, v, Some(Leaf(f, rw, false, true))), LeafIn(s, m, v))
  }

  /** A frame that is taken and given back keeps what was written to it meanwhile. */
  function Scribble(s: State, f: nat, page: Page): State {
    s.(mem := s.mem[f := page], shm := s.shm - {f})
  }

  /** mm_map_user_page: the replaced leaf's reference goes unless the frame stays. */
  function Remap(s: State, m: nat, v: nat, leaf: Leaf): State
    requires m in s.view
  {
    var was := LeafIn(s, m, v);
    var s1 := Install(s, m, v, Some(leaf));
    if was.Some? && was.value.ppn == leaf.ppn then s1 else Drop(s1, was)
  }

  /** A device page: unowned, and not a frame of the pool. */
  function Device(s: State, m: nat, v: nat, ppn: nat, rw: bool): State
    requires m in s.view
  {
    Drop(Install(s, m, v, Some(Leaf(ppn, rw, false, false))), LeafIn(s, m, v))
  }

  /** mm_mark_share_user_readonly_page on an owned leaf. */
  function Protect(s: State, m: nat, v: nat): State {
    if Has(s, m, v) && s.view[m][v].owned then Install(s, m, v, Some(s.view[m][v].(rw := false, cow := true))) else s
  }

  predicate Writable(l: Leaf) { l.rw || l.cow }

  /** A child can write its page, at once or after a fault, if and only if the parent could write
      its own; where the page is MAP_SHARED, at least if the parent could at once. */
  predicate GrantedAs(l0: Leaf, l: Leaf, shared: bool) {
    (l.rw || l.cow ==> l0.rw || l0.cow) && (l0.rw || (l0.cow && !shared) ==> l.rw || l.cow)
  }

  /** The leaf a forked child gets when it shares the parent's frame. */
  function SharedLeaf(l: Leaf): Leaf { Leaf(l.ppn, false, Writable(l), l.owned) }

  /** Fork, sharing one page: retain, map read-only in the child, protect the parent. */
  function ForkShare(s: State, p: nat, c: nat, v: nat): State
    requires Has(s, p, v) && c in s.view
  {
    var l := s.view[p][v];
    var s1 := if l.owned then Retain(s, l.ppn) else s;
    var s2 := Install(s1, c, v, Some(SharedLeaf(l)));
    if Writable(l) then Protect(s2, p, v) else s2
  }

  /** Fork of a MAP_SHARED page: the same frame, as writable as in the parent. */
  function ForkShm(s: State, p: nat, c: nat, v: nat): State
    requires Has(s, p, v) && c in s.view
  {
    var l := s.view[p][v];
    var s0 := s.(shm := s.shm + {l.ppn});
    Install(Retain(s0, l.ppn), c, v, Some(Leaf(l.ppn, l.rw, false, l.owned || l.ppn in s.refs)))
  }

  /** A write fault in a MAP_SHARED page: the same frame, writable. */
  function ShmFault(s: State, m: nat, v: nat): State
    requires Has(s, m, v)
  {
    var l := s.view[m][v];
    Install(s.(shm := s.shm + {l.ppn}), m, v, Some(Leaf(l.ppn, true, false, l.owned)))
  }

  /** A copy-on-write fault on a frame nobody else refers to. */
  function Reuse(s: State, m: nat, v: nat): State
    requires Has(s, m, v)
  {
    Install(s, m, v, Some(Leaf(s.view[m][v].ppn, true, false, true)))
  }

  /** Unmap one page. */
  function Clear(s: State, m: nat, v: nat): State
    requires m in s.view
  {
    Drop(Install(s, m, v, None), LeafIn(s, m, v))
  }

  /** The references that leaves of m in the given pages hold on f. */
  function Lost(lv: map<nat, Leaf>, m: nat, gone: set<nat>, f: nat): set<Ref> {
    set v | v in gone && v in lv && lv[v].owned && lv[v].ppn == f :: MapRef(m, v)
  }

  /** Unmap a set of pages: every owned leaf among them gives up its reference. */
  function Purge(s: State, m: nat, gone: set<nat>): State
    requires m in s.view
  {
    var lv := s.view[m];
    s.(view := s.view[m := lv - gone], refs := Lessen(s.refs, lv, m, gone))
  }

  function Lessen(refs: map<nat, nat>, lv: map<nat, Leaf>, m: nat, gone: set<nat>): map<nat, nat> {
    map f | f in refs && refs[f] > |Lost(lv, m, gone, f)| :: refs[f] - |Lost(lv, m, gone, f)|
  }

  /** The last mm_release: every owned leaf gives up its reference and the address
      space is gone. */
  function Death(s: State, m: nat): State
    requires m in s.view
  {
    var s1 := Purge(s, m, s.view[m].Keys);
    s1.(view := s.view - {m})
  }

  /** exec_img_map, one page of a cached image. */
  function ImageMap(s: State, m: nat, slot: Slot): State
    requires m in s.view
  {
    Install(Retain(s, slot.ppn), m, slot.v, Some(Leaf(slot.ppn, false, true, true)))
  }

  /** The bytes behind a list of slots. */
  function Bytes(mem: map<nat, Page>, pages: seq<Slot>): seq<Page> {
    seq(|pages|, j requires 0 <= j < |pages| => At(mem, pages[j].ppn))
  }

  function Bump(refs: map<nat, nat>, more: multiset<nat>): map<nat, nat> {
    map f | f in refs :: refs[f] + more[f]
  }

  function Sink(refs: map<nat, nat>, less: multiset<nat>): map<nat, nat> {
    map f | f in refs && refs[f] > less[f] :: refs[f] - less[f]
  }

  /** Write-protect the owned leaves among the given pages. */
  function ProtectSet(lv: map<nat, Leaf>, vs: set<nat>): map<nat, Leaf> {
    map v | v in lv :: if v in vs && lv[v].owned then lv[v].(rw := false, cow := true) else lv[v]
  }

  function Vpns(pages: seq<Slot>): set<nat> { set j | 0 <= j < |pages| :: pages[j].v }

  /** exec_img_register with its exec_img_clear of the slot, and exec_img_demote_owner:
      the snapshot takes a reference on every frame, the old snapshot gives up its own,
      and the first user of the image loses write access to it. */
  function Register(s: State, i: nat, m: nat, img: Image): State
    requires i < |s.cache| && i < |s.snap| && m in s.view
  {
    s.(refs := Sink(Bump(s.refs, Frames(img.pages)), Frames(s.cache[i].pages)),
       cache := s.cache[i := img], snap := s.snap[i := Bytes(s.mem, img.pages)],
       view := s.view[m := ProtectSet(s.view[m], Vpns(img.pages))])
  }

  // --------------------------------------------- every step keeps the invariants

  ghost predicate Good(s: State, ram: set<nat>, hold: multiset<nat>) { Sound(s, ram, hold) && Isolated(s) }

  lemma InstallGood(s: State, ram: set<nat>, hold: multiset<nat>, m: nat, v: nat, o: Option<Leaf>)
    requires Good(s, ram, hold) && m in s.view && m != KERNEL && v < LIMIT
    requires Owing(o) <= hold + Owing(LeafIn(s, m, v))
    requires o.Some? && !o.value.owned && o.value.ppn != v ==> o.value.ppn !in ram
    requires o.Some? && Demanding(s, o.value) ==> Live(s, o.value.ppn) == 1
    ensures Good(Install(s, m, v, o), ram, hold + Owing(LeafIn(s, m, v)) - Owing(o))
  {
    InstallSound(s, ram, hold, m, v, o);
    InstallIsolated(s, m, v, o);
  }

  lemma ReleaseGood(s: State, ram: set<nat>, hold: multiset<nat>, f: nat)
    requires Good(s, ram, hold) && f in hold
    ensures Good(Release(s, f), ram, hold - multiset{f})
  {
    ReleaseSound(s, ram, hold, f);
    ReleaseIsolated(s, hold, f);
  }

  lemma AllocGood(s: State, ram: set<nat>, hold: multiset<nat>, f: nat, page: Page)
    requires Good(s, ram, hold) && f !in s.refs && f in ram
    ensures Good(Alloc(s, f, page), ram, hold + multiset{f}) && hold[f] == 0
  {
    AllocSound(s, ram, hold, f, page);
    AllocIsolated(s, hold, f, page);
  }

  lemma RetainGood(s: State, ram: set<nat>, hold: multiset<nat>, f: nat, r: Ref)
    requires Good(s, ram, hold) && r in Refs(s, f)
    requires r.MapRef? && Has(s, r.m, r.v) ==> !Demanding(s, s.view[r.m][r.v])
    ensures f in s.refs && Good(Retain(s, f), ram, hold + multiset{f})
  {
    Referenced(s, hold, r, f);
    RetainSound(s, ram, hold, f);
    RetainIsolated(s, hold, f, r);
  }

  /** Dropping the reference of a leaf that is no longer there. */
  lemma DropGood(s: State, ram: set<nat>, hold: multiset<nat>, was: Option<Leaf>)
    requires Good(s, ram, hold + Owing(was))
    ensures Good(Drop(s, was), ram, hold)
  {
    if was.Some? && was.value.owned {
      ReleaseGood(s, ram, hold + Owing(was), was.value.ppn);
      assert hold + Owing(was) - multiset{was.value.ppn} == hold;
    } else {
      assert hold + Owing(was) == hold;
    }
  }

  lemma BornRefs(s: State, m: nat, f: nat)
    requires KernelBare(s) && m !in s.view
    ensures LeafRefs(Born(s, m).view, f) == LeafRefs(s.view, f)
  {
    var s' := Born(s, m);
    forall r: Ref
      ensures r in LeafRefs(s'.view, f) <==> r in LeafRefs(s.view, f)
    {
      if r.MapRef? {
        LeafRefIn(s', r.m, r.v, f);
        LeafRefIn(s, r.m, r.v, f);
      }
    }
  }

  lemma BornSteady(s: State, ram: set<nat>, m: nat)
    requires Steady(s, ram) && m !in s.view
    ensures Steady(Born(s, m), ram)
  {
    var s' := Born(s, m);
    assert Conserved(s', multiset{}) by {
      forall f
        ensures Counted(s', multiset{}, f)
      {
        assert Counted(s, multiset{}, f);
        BornRefs(s, m, f);
      }
    }
    forall k: nat, v: nat | Has(s', k, v)
      ensures Exclusive(s', k, v)
      ensures !s'.view[k][v].owned && s'.view[k][v].ppn != v ==> s'.view[k][v].ppn !in ram
    {
      var k0 := if k == m then KERNEL else k;
      assert s'.view[k][v] == s.view[k0][v];
      assert Exclusive(s, k0, v);
    }
  }

  lemma FreshSteady(s: State, ram: set<nat>, m: nat, v: nat, f: nat, page: Page, rw: bool)
    requires Steady(s, ram) && m in s.view && m != KERNEL && v < LIMIT && f in ram && f !in s.refs
    ensures var s' := Fresh(s, m, v, f, page, rw);
            Steady(s', ram) && Has(s', m, v) && Reads(s', m, v) == page
  {
    var leaf := Some(Leaf(f, rw, false, true));
    AllocGood(s, ram, multiset{}, f, page);
    var s1 := Alloc(s, f, page);
    assert LeafIn(s1, m, v) == LeafIn(s, m, v);
    InstallGood(s1, ram, multiset{} + multiset{f}, m, v, leaf);
    assert multiset{} + multiset{f} + Owing(LeafIn(s, m, v)) - Owing(leaf) == multiset{} + Owing(LeafIn(s, m, v));
    DropGood(Install(s1, m, v, leaf), ram, multiset{}, LeafIn(s, m, v));
  }

  lemma ScribbleSteady(s: State, ram: set<nat>, f: nat, page: Page)
    requires Steady(s, ram) && f in ram && f !in s.refs
    ensures Steady(Scribble(s, f, page), ram) && Scribble(s, f, page) == Release(Alloc(s, f, page), f)
  {
    AllocGood(s, ram, multiset{}, f, page);
    assert multiset{} + multiset{f} == multiset{f};
    ReleaseGood(Alloc(s, f, page), ram, multiset{f}, f);
    assert multiset{f} - multiset{f} == multiset{};
    assert s.refs[f := 1] - {f} == s.refs;
  }

  lemma DeviceSteady(s: State, ram: set<nat>, m: nat, v: nat, ppn: nat, rw: bool)
    requires Steady(s, ram) && m in s.view && m != KERNEL && v < LIMIT && ppn !in ram
    ensures Steady(Device(s, m, v, ppn, rw), ram)
  {
    var leaf := Some(Leaf(ppn, rw, false, false));
    InstallGood(s, ram, multiset{}, m, v, leaf);
    assert multiset{} + Owing(LeafIn(s, m, v)) - Owing(leaf) == multiset{} + Owing(LeafIn(s, m, v));
    DropGood(Install(s, m, v, leaf), ram, multiset{}, LeafIn(s, m, v));
  }

  lemma ProtectGood(s: State, ram: set<nat>, hold: multiset<nat>, m: nat, v: nat)
    requires Good(s, ram, hold)
    ensures Good(Protect(s, m, v), ram, hold)
  {
    if Has(s, m, v) && s.view[m][v].owned {
      var l := s.view[m][v];
      InstallGood(s, ram, hold, m, v, Some(l.(rw := false, cow := true)));
      assert hold + Owing(LeafIn(s, m, v)) - Owing(Some(l.(rw := false, cow := true))) == hold;
    }
  }

  /** An unowned leaf that is not the kernel's identity leaf. */
  predicate Unowned(o: Option<Leaf>) { o.Some? ==> !o.value.owned }

  ghost predicate CanShare(s: State, p: nat, c: nat, v: nat) {
    Has(s, p, v) && c in s.view && c != p && c != KERNEL && p != KERNEL && Unowned(LeafIn(s, c, v)) &&
    var l := s.view[p][v]; l.owned || (l.ppn != v && !Writable(l))
  }

  lemma MapSwap<K, V>(m: map<K, V>, a: K, x: V, b: K, y: V)
    requires a != b
    ensures m[a := x][b := y] == m[b := y][a := x]
  {
  }

  /** Protecting the parent first leads to the same state. */
  lemma ForkShareOrder(s: State, p: nat, c: nat, v: nat)
    requires CanShare(s, p, c, v)
    ensures var l := s.view[p][v];
            var s1 := if Writable(l) then Protect(s, p, v) else s;
            var s2 := if l.owned then Retain(s1, l.ppn) else s1;
            ForkShare(s, p, c, v) == Install(s2, c, v, Some(SharedLeaf(l)))
  {
    var l := s.view[p][v];
    var s1 := if Writable(l) then Protect(s, p, v) else s;
    var s2 := if l.owned then Retain(s1, l.ppn) else s1;
    var cv, pv := s.view[c][v := SharedLeaf(l)], s.view[p][v := l.(rw := false, cow := true)];
    MapSwap(s.view, c, cv, p, pv);
  }

  lemma ForkShareSteady(s: State, ram: set<nat>, p: nat, c: nat, v: nat)
    requires Steady(s, ram) && CanShare(s, p, c, v)
    ensures var s' := ForkShare(s, p, c, v);
            Steady(s', ram) && Has(s', c, v) && Has(s', p, v) &&
            Reads(s', c, v) == Reads(s, p, v) && Reads(s', p, v) == Reads(s, p, v)
  {
    var l := s.view[p][v];
    ForkShareOrder(s, p, c, v);
    var s1 := if Writable(l) then Protect(s, p, v) else s;
    ProtectGood(s, ram, multiset{}, p, v);
    assert Has(s1, p, v) && s1.view[p][v].ppn == l.ppn && s1.view[p][v].owned == l.owned;
    var leaf := Some(SharedLeaf(l));
    assert LeafIn(s1, c, v) == LeafIn(s, c, v);
    if l.owned {
      assert MapRef(p, v) in Refs(s1, l.ppn);
      RetainGood(s1, ram, multiset{}, l.ppn, MapRef(p, v));
      assert multiset{} + multiset{l.ppn} == multiset{l.ppn};
      HandOver(Retain(s1, l.ppn), ram, c, v, SharedLeaf(l));
    } else {
      InstallGood(s1, ram, multiset{}, c, v, leaf);
      assert multiset{} + Owing(LeafIn(s1, c, v)) - Owing(leaf) == multiset{};
    }
  }

  ghost predicate Cached(s: State, f: nat) {
    exists i: nat, j: nat :: i < |s.cache| && j < |s.cache[i].pages| && s.cache[i].pages[j].ppn == f
  }

  /** Declaring an uncached frame shared memory. */
  lemma ShmGood(s: State, ram: set<nat>, hold: multiset<nat>, f: nat)
    requires Good(s, ram, hold) && !Cached(s, f)
    ensures Good(s.(shm := s.shm + {f}), ram, hold)
  {
    var s' := s.(shm := s.shm + {f});
    CountsOnly(s, hold, s', hold);
    forall m, v | Has(s', m, v)
      ensures Exclusive(s', m, v)
    {
      assert Exclusive(s, m, v);
    }
    forall i: nat, j: nat | i < |s.cache| && j < |s.cache[i].pages|
      ensures s.cache[i].pages[j].ppn != f
    {
      assert s.cache[i].pages[j].ppn == f ==> Cached(s, f);
    }
  }

  ghost predicate CanShm(s: State, p: nat, c: nat, v: nat) {
    Has(s, p, v) && c in s.view && c != p && c != KERNEL && v < LIMIT &&
    Unowned(LeafIn(s, c, v)) && !Cached(s, s.view[p][v].ppn)
  }

  /** Hand a reference in transit to a leaf where no owned leaf was. */
  lemma HandOver(s: State, ram: set<nat>, m: nat, v: nat, leaf: Leaf)
    requires Good(s, ram, multiset{leaf.ppn}) && m in s.view && m != KERNEL && v < LIMIT && leaf.owned
    requires Unowned(LeafIn(s, m, v)) && !Demanding(s, leaf)
    ensures Good(Install(s, m, v, Some(leaf)), ram, multiset{})
  {
    InstallGood(s, ram, multiset{leaf.ppn}, m, v, Some(leaf));
    assert multiset{leaf.ppn} + Owing(LeafIn(s, m, v)) - Owing(Some(leaf)) == multiset{};
  }

  lemma ForkShmLive(s: State, ram: set<nat>, p: nat, c: nat, v: nat)
    requires Steady(s, ram) && CanShm(s, p, c, v) && s.view[p][v].ppn in s.refs
    ensures Steady(ForkShm(s, p, c, v), ram)
  {
    var l := s.view[p][v];
    var f := l.ppn;
    ShmGood(s, ram, multiset{}, f);
    var s0 := s.(shm := s.shm + {f});
    RetainShared(s0, ram, f);
    var s1 := Retain(s0, f);
    assert LeafIn(s1, c, v) == LeafIn(s, c, v);
    HandOver(s1, ram, c, v, Leaf(f, l.rw, false, true));
    assert ForkShm(s, p, c, v) == Install(s1, c, v, Some(Leaf(f, l.rw, false, true)));
  }

  lemma ForkShmBare(s: State, ram: set<nat>, p: nat, c: nat, v: nat)
    requires Steady(s, ram) && CanShm(s, p, c, v) && s.view[p][v].ppn !in s.refs
    ensures Steady(ForkShm(s, p, c, v), ram)
  {
    var l := s.view[p][v];
    var f := l.ppn;
    ShmGood(s, ram, multiset{}, f);
    var s0 := s.(shm := s.shm + {f});
    assert !l.owned by {
      if l.owned {
        assert MapRef(p, v) in Refs(s, f);
        Referenced(s, multiset{}, MapRef(p, v), f);
      }
    }
    var leaf := Some(Leaf(f, l.rw, false, false));
    InstallGood(s0, ram, multiset{}, c, v, leaf);
    assert LeafIn(s0, c, v) == LeafIn(s, c, v);
    assert multiset{} + Owing(LeafIn(s, c, v)) - Owing(leaf) == multiset{};
  }

  lemma ForkShmSteady(s: State, ram: set<nat>, p: nat, c: nat, v: nat)
    requires Steady(s, ram) && CanShm(s, p, c, v)
    ensures Steady(ForkShm(s, p, c, v), ram)
    ensures Has(ForkShm(s, p, c, v), c, v) && Reads(ForkShm(s, p, c, v), c, v) == Reads(s, p, v)
  {
    if s.view[p][v].ppn in s.refs {
      ForkShmLive(s, ram, p, c, v);
    } else {
      ForkShmBare(s, ram, p, c, v);
    }
  }

  lemma RetainShared(s: State, ram: set<nat>, f: nat)
    requires Good(s, ram, multiset{}) && f in s.shm && f in s.refs
    ensures Good(Retain(s, f), ram, multiset{f})
  {
    RetainSound(s, ram, multiset{}, f);
    assert multiset{} + multiset{f} == multiset{f};
    var s' := Retain(s, f);
    forall m, v | Has(s', m, v)
      ensures Exclusive(s', m, v)
    {
      assert Exclusive(s, m, v);
    }
  }

  lemma ShmFaultSteady(s: State, ram: set<nat>, m: nat, v: nat)
    requires Steady(s, ram) && Has(s, m, v) && m != KERNEL && v < LIMIT && !Cached(s, s.view[m][v].ppn)
    ensures var s' := ShmFault(s, m, v); Steady(s', ram) && Has(s', m, v) && Reads(s', m, v) == Reads(s, m, v)
  {
    var l := s.view[m][v];
    ShmGood(s, ram, multiset{}, l.ppn);
    var s0 := s.(shm := s.shm + {l.ppn});
    var leaf := Some(Leaf(l.ppn, true, false, l.owned));
    InstallGood(s0, ram, multiset{}, m, v, leaf);
    assert multiset{} + Owing(LeafIn(s0, m, v)) - Owing(leaf) == multiset{};
    assert ShmFault(s, m, v) == Install(s0, m, v, leaf);
  }

  lemma ReuseSteady(s: State, ram: set<nat>, m: nat, v: nat)
    requires Steady(s, ram) && Has(s, m, v) && m != KERNEL && v < LIMIT && s.view[m][v].owned
    requires Live(s, s.view[m][v].ppn) == 1
    ensures var s' := Reuse(s, m, v); Steady(s', ram) && Has(s', m, v) && Reads(s', m, v) == Reads(s, m, v)
  {
    var leaf := Some(Leaf(s.view[m][v].ppn, true, false, true));
    InstallGood(s, ram, multiset{}, m, v, leaf);
    assert multiset{} + Owing(LeafIn(s, m, v)) - Owing(leaf) == multiset{};
  }

  // ------------------------------------------------------------------- unmap

  lemma PurgeLeafRefs(s: State, m: nat, gone: set<nat>, f: nat)
    requires m in s.view
    ensures LeafRefs(s.view[m := s.view[m] - gone], f) == LeafRefs(s.view, f) - Lost(s.view[m], m, gone, f)
    ensures Lost(s.view[m], m, gone, f) <= LeafRefs(s.view, f)
  {
    var s' := s.(view := s.view[m := s.view[m] - gone]);
    var lost := Lost(s.view[m], m, gone, f);
    forall r: Ref
      ensures r in LeafRefs(s'.view, f) <==> r in LeafRefs(s.view, f) && r !in lost
      ensures r in lost ==> r in LeafRefs(s.view, f)
    {
      if r.MapRef? {
        LeafRefIn(s', r.m, r.v, f);
        LeafRefIn(s, r.m, r.v, f);
        assert r in lost <==> r.m == m && r.v in gone && OwnsFrame(LeafIn(s, m, r.v), f);
      }
    }
  }

  lemma PurgeRefs(s: State, m: nat, gone: set<nat>, f: nat)
    requires m in s.view
    ensures var s' := s.(view := s.view[m := s.view[m] - gone]);
            Refs(s', f) == Refs(s, f) - Lost(s.view[m], m, gone, f) && Lost(s.view[m], m, gone, f) <= Refs(s, f) &&
            |Refs(s', f)| == |Refs(s, f)| - |Lost(s.view[m], m, gone, f)|
  {
    var s' := s.(view := s.view[m := s.view[m] - gone]);
    var lost := Lost(s.view[m], m, gone, f);
    PurgeLeafRefs(s, m, gone, f);
    assert lost !! SlotRefs(s.cache, f);
    hide LeafRefs, SlotRefs, Lost;
    assert Refs(s', f) == Refs(s, f) - lost;
  }

  lemma PurgeSound(s: State, ram: set<nat>, m: nat, gone: set<nat>)
    requires Sound(s, ram, multiset{}) && m in s.view && m != KERNEL
    ensures Sound(Purge(s, m, gone), ram, multiset{})
  {
    var s' := Purge(s, m, gone);
    forall f
      ensures Counted(s', multiset{}, f)
    {
      assert Counted(s, multiset{}, f);
      PurgeRefs(s, m, gone, f);
      assert Refs(s', f) == Refs(s.(view := s'.view), f);
    }
  }

  lemma PurgeIsolated(s: State, ram: set<nat>, m: nat, gone: set<nat>)
    requires Steady(s, ram) && m in s.view && m != KERNEL
    ensures Isolated(Purge(s, m, gone))
  {
    var s' := Purge(s, m, gone);
    forall k: nat, v: nat | Has(s', k, v)
      ensures Exclusive(s', k, v)
    {
      assert Exclusive(s, k, v);
      var l := s.view[k][v];
      if Demanding(s, l) {
        LeafRefIn(s, k, v, l.ppn);
        Referenced(s, multiset{}, MapRef(k, v), l.ppn);
        PurgeRefs(s, m, gone, l.ppn);
        assert MapRef(k, v) !in Lost(s.view[m], m, gone, l.ppn);
        assert Lost(s.view[m], m, gone, l.ppn) == {};
      }
    }
  }

  lemma PurgeSteady(s: State, ram: set<nat>, m: nat, gone: set<nat>)
    requires Steady(s, ram) && m in s.view && m != KERNEL
    ensures Steady(Purge(s, m, gone), ram)
  {
    PurgeSound(s, ram, m, gone);
    PurgeIsolated(s, ram, m, gone);
  }

  lemma LessenOne(refs: map<nat, nat>, lv: map<nat, Leaf>, m: nat, gone: set<nat>, v: nat)
    requires v !in gone
    ensures Lessen(refs, lv, m, gone + {v}) ==
            if v in lv && lv[v].owned then Released(Lessen(refs, lv, m, gone), lv[v].ppn) else Lessen(refs, lv, m, gone)
  {
    var a := Lessen(refs, lv, m, gone + {v});
    var b := if v in lv && lv[v].owned then Released(Lessen(refs, lv, m, gone), lv[v].ppn)
        else Lessen(refs, lv, m, gone);
    forall f
      ensures f in a <==> f in b
      ensures f in a ==> a[f] == b[f]
    {
      LostOne(lv, m, gone, v, f);
    }
  }

  /** Purging one more page is purging the others and clearing that one. */
  lemma PurgeOne(s: State, m: nat, gone: set<nat>, v: nat)
    requires m in s.view && v !in gone
    ensures Purge(s, m, gone + {v}) == Clear(Purge(s, m, gone), m, v)
  {
    var lv := s.view[m];
    LessenOne(s.refs, lv, m, gone, v);
    assert lv - (gone + {v}) == lv - gone - {v};
    var a, b := Purge(s, m, gone + {v}), Clear(Purge(s, m, gone), m, v);
    assert LeafIn(Purge(s, m, gone), m, v) == LeafIn(s, m, v);
    assert b.refs == Lessen(s.refs, lv, m, gone + {v});
    assert a.view == b.view;
  }

  lemma LostOne(lv: map<nat, Leaf>, m: nat, gone: set<nat>, v: nat, f: nat)
    requires v !in gone
    ensures |Lost(lv, m, gone + {v}, f)| ==
              |Lost(lv, m, gone, f)| + (if v in lv && lv[v].owned && lv[v].ppn == f then 1 else 0)
  {
    var a, b := Lost(lv, m, gone + {v}, f), Lost(lv, m, gone, f);
    assert MapRef(m, v) in a <==> v in lv && lv[v].owned && lv[v].ppn == f;
    assert a - {MapRef(m, v)} == b;
    Without(a, MapRef(m, v));
  }

  /** An address space without leaves can go. */
  lemma EmptyGone(s: State, ram: set<nat>, m: nat)
    requires Steady(s, ram) && m in s.view && m != KERNEL && s.view[m] == map[]
    ensures Steady(s.(view := s.view - {m}), ram)
  {
    var s' := s.(view := s.view - {m});
    forall f
      ensures Counted(s', multiset{}, f)
    {
      assert Counted(s, multiset{}, f);
      GoneRefs(s, m, f);
    }
    forall n, v | Has(s', n, v)
      ensures Exclusive(s', n, v)
    {
      assert Exclusive(s, n, v);
    }
  }

  lemma GoneRefs(s: State, m: nat, f: nat)
    requires m in s.view && s.view[m] == map[]
    ensures LeafRefs(s.view - {m}, f) == LeafRefs(s.view, f)
  {
    var s' := s.(view := s.view - {m});
    forall r: Ref
      ensures r in LeafRefs(s'.view, f) <==> r in LeafRefs(s.view, f)
    {
      if r.MapRef? {
        LeafRefIn(s', r.m, r.v, f);
        LeafRefIn(s, r.m, r.v, f);
      }
    }
  }

  lemma DeathSteady(s: State, ram: set<nat>, m: nat)
    requires Steady(s, ram) && m in s.view && m != KERNEL
    ensures Steady(Death(s, m), ram)
  {
    var s1 := Purge(s, m, s.view[m].Keys);
    PurgeSteady(s, ram, m, s.view[m].Keys);
    assert s1.view[m] == map[];
    EmptyGone(s1, ram, m);
    assert s1.view - {m} == s.view - {m};
  }

  // -------------------------------------------------------------- exec images

  lemma ImageMapSteady(s: State, ram: set<nat>, m: nat, i: nat, j: nat)
    requires Steady(s, ram) && m in s.view && m != KERNEL && i < |s.cache| && j < |s.cache[i].pages|
    requires var slot := s.cache[i].pages[j]; slot.v < LIMIT && Unowned(LeafIn(s, m, slot.v))
    ensures var slot := s.cache[i].pages[j]; var s' := ImageMap(s, m, slot);
            Steady(s', ram) && Has(s', m, slot.v) && Reads(s', m, slot.v) == s.snap[i][j]
  {
    var slot := s.cache[i].pages[j];
    assert SlotRef(i, j) in Refs(s, slot.ppn);
    RetainGood(s, ram, multiset{}, slot.ppn, SlotRef(i, j));
    var s1 := Retain(s, slot.ppn);
    assert multiset{} + multiset{slot.ppn} == multiset{slot.ppn};
    HandOver(s1, ram, m, slot.v, Leaf(slot.ppn, false, true, true));
  }

  lemma {:induction false} FramesMember(pages: seq<Slot>, f: nat)
    ensures f in Frames(pages) <==> exists j :: 0 <= j < |pages| && pages[j].ppn == f
  {
    if pages != [] {
      var n := |pages| - 1;
      FramesMember(pages[..n], f);
      if j :| 0 <= j < |pages| && pages[j].ppn == f {
        assert j < n ==> pages[..n][j].ppn == f;
      }
    }
  }

  /** Giving up everything in transit. */
  lemma SinkGood(s: State, ram: set<nat>, hold: multiset<nat>)
    requires Good(s, ram, hold)
    ensures Good(s.(refs := Sink(s.refs, hold)), ram, multiset{})
  {
    var s' := s.(refs := Sink(s.refs, hold));
    forall f
      ensures Live(s', f) == Live(s, f) - hold[f]
    {
      assert Counted(s, hold, f);
    }
    CountsOnly(s, hold, s', multiset{});
    forall m, v | Has(s', m, v)
      ensures Exclusive(s', m, v)
    {
      assert Exclusive(s, m, v);
      if s.view[m][v].ppn in hold {
        NotDemanded(s, hold, s.view[m][v].ppn, m, v);
      }
    }
  }

  /** A leaf or slot refers to f without demanding it alone. */
  ghost predicate Shareable(s: State, r: Ref, f: nat) {
    r in Refs(s, f) && (r.MapRef? && Has(s, r.m, r.v) ==> !Demanding(s, s.view[r.m][r.v]))
  }

  lemma BumpGood(s: State, ram: set<nat>, more: multiset<nat>)
    requires Good(s, ram, multiset{})
    requires forall f :: f in more ==> exists r :: Shareable(s, r, f)
    ensures Good(s.(refs := Bump(s.refs, more)), ram, more)
  {
    var s' := s.(refs := Bump(s.refs, more));
    forall f
      ensures Live(s', f) == Live(s, f) + more[f]
    {
      if f in more {
        var r :| Shareable(s, r, f);
        Referenced(s, multiset{}, r, f);
      }
    }
    CountsOnly(s, multiset{}, s', more);
    forall m, v | Has(s', m, v)
      ensures Exclusive(s', m, v)
    {
      BumpExclusive(s, ram, more, m, v);
    }
  }

  lemma BumpExclusive(s: State, ram: set<nat>, more: multiset<nat>, m: nat, v: nat)
    requires Good(s, ram, multiset{}) && Has(s, m, v)
    requires forall f :: f in more ==> exists r :: Shareable(s, r, f)
    ensures Exclusive(s.(refs := Bump(s.refs, more)), m, v)
  {
    assert Exclusive(s, m, v);
    var f := s.view[m][v].ppn;
    if f in more {
      var r :| Shareable(s, r, f);
      if Demanding(s, s.view[m][v]) {
        LeafRefIn(s, m, v, f);
        Referenced(s, multiset{}, MapRef(m, v), f);
      }
    }
  }

  lemma ProtectSetGood(s: State, ram: set<nat>, m: nat, vs: set<nat>)
    requires Good(s, ram, multiset{}) && m in s.view
    ensures Good(s.(view := s.view[m := ProtectSet(s.view[m], vs)]), ram, multiset{})
  {
    var s' := s.(view := s.view[m := ProtectSet(s.view[m], vs)]);
    forall f
      ensures Counted(s', multiset{}, f)
    {
      assert Counted(s, multiset{}, f);
      ProtectSetRefs(s, m, vs, f);
    }
    forall k: nat, v: nat | Has(s', k, v)
      ensures Exclusive(s', k, v)
      ensures !s'.view[k][v].owned && s'.view[k][v].ppn != v ==> s'.view[k][v].ppn !in ram
    {
      assert Exclusive(s, k, v);
    }
  }

  lemma ProtectSetRefs(s: State, m: nat, vs: set<nat>, f: nat)
    requires m in s.view
    ensures LeafRefs(s.view[m := ProtectSet(s.view[m], vs)], f) == LeafRefs(s.view, f)
  {
    var s' := s.(view := s.view[m := ProtectSet(s.view[m], vs)]);
    forall r: Ref
      ensures r in LeafRefs(s'.view, f) <==> r in LeafRefs(s.view, f)
    {
      if r.MapRef? {
        LeafRefIn(s', r.m, r.v, f);
        LeafRefIn(s, r.m, r.v, f);
      }
    }
  }

  lemma SetImageGood(s: State, ram: set<nat>, hold: multiset<nat>, i: nat, img: Image)
    requires Good(s, ram, hold) && i < |s.cache| && i < |s.snap| && hold == Frames(img.pages)
    requires forall j :: 0 <= j < |img.pages| ==> img.pages[j].ppn !in s.shm
    ensures Good(SetImage(s, i, img, Bytes(s.mem, img.pages)), ram, Frames(s.cache[i].pages))
  {
    SetImageConserved(s, hold, i, img, Bytes(s.mem, img.pages));
    assert hold + Frames(s.cache[i].pages) - Frames(img.pages) == Frames(s.cache[i].pages);
    var s' := SetImage(s, i, img, Bytes(s.mem, img.pages));
    SetImagePristine(s, i, img);
    forall m, v | Has(s', m, v)
      ensures Exclusive(s', m, v)
    {
      assert Exclusive(s, m, v);
    }
  }

  lemma SetImagePristine(s: State, i: nat, img: Image)
    requires Pristine(s) && i < |s.cache| && forall j :: 0 <= j < |img.pages| ==> img.pages[j].ppn !in s.shm
    ensures Pristine(SetImage(s, i, img, Bytes(s.mem, img.pages)))
  {
  }

  /** The image lists pages of m with their private, owned frames. */
  ghost predicate CanRegister(s: State, i: nat, m: nat, img: Image) {
    i < |s.cache| && m in s.view && m != KERNEL &&
    forall j {:trigger img.pages[j]} :: 0 <= j < |img.pages| ==>
      var slot := img.pages[j];
      Has(s, m, slot.v) && s.view[m][slot.v].owned && s.view[m][slot.v].ppn == slot.ppn && slot.ppn !in s.shm
  }

  lemma RegisterSteady(s: State, ram: set<nat>, i: nat, m: nat, img: Image)
    requires Steady(s, ram) && CanRegister(s, i, m, img)
    ensures Steady(Register(s, i, m, img), ram)
  {
    var vs := Vpns(img.pages);
    ProtectSetGood(s, ram, m, vs);
    var s1 := s.(view := s.view[m := ProtectSet(s.view[m], vs)]);
    forall f | f in Frames(img.pages)
      ensures exists r :: Shareable(s1, r, f)
    {
      FramesMember(img.pages, f);
      var j :| 0 <= j < |img.pages| && img.pages[j].ppn == f;
      assert img.pages[j].v in vs;
      LeafRefIn(s1, m, img.pages[j].v, f);
      assert Shareable(s1, MapRef(m, img.pages[j].v), f);
    }
    BumpGood(s1, ram, Frames(img.pages));
    var s2 := s1.(refs := Bump(s1.refs, Frames(img.pages)));
    SetImageGood(s2, ram, Frames(img.pages), i, img);
    var s3 := SetImage(s2, i, img, Bytes(s2.mem, img.pages));
    SinkGood(s3, ram, Frames(s.cache[i].pages));
    assert Register(s, i, m, img) == s3.(refs := Sink(s3.refs, Frames(s.cache[i].pages)));
  }

  /** An image whose frames all have one reference is mapped nowhere. */
  ghost predicate Idle(s: State, i: nat)
    requires i < |s.cache|
  {
    forall j :: 0 <= j < |s.cache[i].pages| ==> Live(s, s.cache[i].pages[j].ppn) == 1
  }

  lemma IdleUnmapped(s: State, ram: set<nat>, i: nat, j: nat, m: nat, v: nat)
    requires Steady(s, ram) && i < |s.cache| && j < |s.cache[i].pages| && Idle(s, i)
    requires Has(s, m, v) && s.view[m][v].owned
    ensures s.view[m][v].ppn != s.cache[i].pages[j].ppn
  {
    var f := s.cache[i].pages[j].ppn;
    assert SlotRef(i, j) in Refs(s, f);
    Referenced(s, multiset{}, SlotRef(i, j), f);
    LeafRefIn(s, m, v, f);
  }

  /** No owned leaf of any address space names a frame of the image. */
  ghost predicate Unmapped(s: State, i: nat)
    requires i < |s.cache|
  {
    forall m, v, j {:trigger s.view[m][v], s.cache[i].pages[j]} ::
      m in s.view && v in s.view[m] && s.view[m][v].owned && 0 <= j < |s.cache[i].pages| ==>
        s.view[m][v].ppn != s.cache[i].pages[j].ppn
  }

  /** A slot found idle after more references were taken was mapped nowhere before. */
  lemma IdleBefore(s: State, ram: set<nat>, i: nat, more: multiset<nat>)
    requires Steady(s, ram) && i < |s.cache| && Idle(s.(refs := Bump(s.refs, more)), i)
    ensures Unmapped(s, i)
  {
    var t := s.(refs := Bump(s.refs, more));
    forall j | 0 <= j < |s.cache[i].pages|
      ensures Live(s, s.cache[i].pages[j].ppn) == 1
    {
      var f := s.cache[i].pages[j].ppn;
      assert Live(t, t.cache[i].pages[j].ppn) == 1;
      assert SlotRef(i, j) in Refs(s, f);
      Referenced(s, multiset{}, SlotRef(i, j), f);
    }
    forall m, v, j | m in s.view && v in s.view[m] && s.view[m][v].owned && 0 <= j < |s.cache[i].pages|
      ensures s.view[m][v].ppn != s.cache[i].pages[j].ppn
    {
      IdleUnmapped(s, ram, i, j, m, v);
    }
  }

  // -------------------------------------------------------------------- runs

  datatype Step =
    | SBorn(m: nat)
    | SFresh(m: nat, v: nat, f: nat, page: Page, rw: bool)
    | SScribble(f: nat, page: Page)
    | SDevice(m: nat, v: nat, ppn: nat, rw: bool)
    | SShare(p: nat, c: nat, v: nat)
    | SShm(p: nat, c: nat, v: nat)
    | SShmFault(m: nat, v: nat)
    | SReuse(m: nat, v: nat)
    | SPurge(m: nat, gone: set<nat>)
    | SDeath(m: nat)
    | SImageMap(m: nat, i: nat, j: nat)
    | SRegister(i: nat, m: nat, img: Image)
    | SWrite(m: nat, v: nat, page: Page)

  ghost predicate UserMm(s: State, m: nat) { m in s.view && m != KERNEL }

  ghost predicate Enabled(s: State, ram: set<nat>, step: Step) {
    match step
    case SBorn(m) => m !in s.view
    case SFresh(m, v, f, page, rw) => UserMm(s, m) && v < LIMIT && f in ram && f !in s.refs
    case SScribble(f, page) => f in ram && f !in s.refs
    case SDevice(m, v, ppn, rw) => UserMm(s, m) && v < LIMIT && ppn !in ram
    case SShare(p, c, v) => CanShare(s, p, c, v)
    case SShm(p, c, v) => CanShm(s, p, c, v)
    case SShmFault(m, v) => UserMm(s, m) && Has(s, m, v) && !Cached(s, s.view[m][v].ppn)
    case SReuse(m, v) => UserMm(s, m) && Has(s, m, v) && s.view[m][v].owned && s.view[m][v].cow &&
        Live(s, s.view[m][v].ppn) == 1
    case SPurge(m, gone) => UserMm(s, m)
    case SDeath(m) => UserMm(s, m)
    case SImageMap(m, i, j) =>
      UserMm(s, m) && i < |s.cache| && j < |s.cache[i].pages| && s.cache[i].pages[j].v < LIMIT &&
      Unowned(LeafIn(s, m, s.cache[i].pages[j].v))
    case SRegister(i, m, img) => CanRegister(s, i, m, img) && Idle(s.(refs := Bump(s.refs, Frames(img.pages))), i)
    case SWrite(m, v, page) => UserMm(s, m) && Has(s, m, v) && s.view[m][v].owned && s.view[m][v].rw
  }

  ghost function After(s: State, ram: set<nat>, step: Step): State
    requires Steady(s, ram) && Enabled(s, ram, step)
  {
    match step
    case SBorn(m) => Born(s, m)
    case SFresh(m, v, f, page, rw) => Fresh(s, m, v, f, page, rw)
    case SScribble(f, page) => Scribble(s, f, page)
    case SDevice(m, v, ppn, rw) => Device(s, m, v, ppn, rw)
    case SShare(p, c, v) => ForkShare(s, p, c, v)
    case SShm(p, c, v) => ForkShm(s, p, c, v)
    case SShmFault(m, v) => ShmFault(s, m, v)
    case SReuse(m, v) => Reuse(s, m, v)
    case SPurge(m, gone) => Purge(s, m, gone)
    case SDeath(m) => Death(s, m)
    case SImageMap(m, i, j) => ImageMap(s, m, s.cache[i].pages[j])
    case SRegister(i, m, img) => Register(s, i, m, img)
    case SWrite(m, v, page) => Store(s, m, v, page)
  }

  /** A write to shared memory disturbs no invariant either. */
  lemma WriteSteady(s: State, ram: set<nat>, m: nat, v: nat, page: Page)
    requires Steady(s, ram) && Has(s, m, v) && s.view[m][v].owned && s.view[m][v].rw
    ensures Steady(Store(s, m, v, page), ram)
  {
    if s.view[m][v].ppn !in s.shm {
      WriteIsolated(s, ram, m, v, page);
    } else {
      var s' := Store(s, m, v, page);
      CountsOnly(s, multiset{}, s', multiset{});
      assert forall m', v' :: Has(s', m', v') ==> (Exclusive(s, m', v') ==> Exclusive(s', m', v'));
    }
  }

  lemma StepSteady(s: State, ram: set<nat>, step: Step)
    requires Steady(s, ram) && Enabled(s, ram, step)
    ensures Steady(After(s, ram, step), ram)
  {
    match step
    case SBorn(m) => BornSteady(s, ram, m);
    case SFresh(m, v, f, page, rw) => FreshSteady(s, ram, m, v, f, page, rw);
    case SScribble(f, page) => ScribbleSteady(s, ram, f, page);
    case SDevice(m, v, ppn, rw) => DeviceSteady(s, ram, m, v, ppn, rw);
    case SShare(p, c, v) => ForkShareSteady(s, ram, p, c, v);
    case SShm(p, c, v) => ForkShmSteady(s, ram, p, c, v);
    case SShmFault(m, v) => ShmFaultSteady(s, ram, m, v);
    case SReuse(m, v) => ReuseSteady(s, ram, m, v);
    case SPurge(m, gone) => PurgeSteady(s, ram, m, gone);
    case SDeath(m) => DeathSteady(s, ram, m);
    case SImageMap(m, i, j) => ImageMapSteady(s, ram, m, i, j);
    case SRegister(i, m, img) => RegisterSteady(s, ram, i, m, img);
    case SWrite(m, v, page) => WriteSteady(s, ram, m, v, page);
  }

  /** The step changes which pages an address space maps, or is its own write. */
  predicate Acts(step: Step, n: nat) {
    match step
    case SShare(p, c, v) => n == c
    case SShm(p, c, v) => n == c
    case SRegister(i, m, img) => false
    case SScribble(f, page) => false
    case SBorn(m) => n == m
    case SFresh(m, v, f, page, rw) => n == m
    case SDevice(m, v, ppn, rw) => n == m
    case SShmFault(m, v) => n == m
    case SReuse(m, v) => n == m
    case SPurge(m, gone) => n == m
    case SDeath(m) => n == m
    case SImageMap(m, i, j) => n == m
    case SWrite(m, v, page) => n == m
  }

  predicate UsesShm(step: Step) { step.SShm? || step.SShmFault? }

  /** The step makes this frame one of MAP_SHARED memory. */
  ghost predicate SharesFrame(s: State, step: Step, f: nat) {
    (step.SShm? && Has(s, step.p, step.v) && s.view[step.p][step.v].ppn == f) ||
    (step.SShmFault? && Has(s, step.m, step.v) && s.view[step.m][step.v].ppn == f)
  }

  /** Same frame, still owned if it was, writable at once only if it was, and still writable after a
      fault if it was. */
  ghost predicate KeptPage(s: State, s': State, n: nat, w: nat) {
    Has(s, n, w) && Has(s', n, w) && s'.view[n][w].ppn == s.view[n][w].ppn &&
    s'.view[n][w].owned == s.view[n][w].owned && (s'.view[n][w].rw ==> s.view[n][w].rw) &&
    (Writable(s.view[n][w]) ==> Writable(s'.view[n][w]))
  }

  /** The same, and writable after a fault only if it was; registering an image makes read-only
      pages copy-on-write. */
  ghost predicate SamePage(s: State, s': State, n: nat, w: nat) {
    KeptPage(s, s', n, w) && (Writable(s'.view[n][w]) ==> Writable(s.view[n][w]))
  }

  lemma ShareKeepsPage(s: State, p: nat, c: nat, v: nat, n: nat, w: nat)
    requires CanShare(s, p, c, v) && n != c && Has(s, n, w)
    ensures SamePage(s, ForkShare(s, p, c, v), n, w)
  {
    ForkShareOrder(s, p, c, v);
  }

  lemma RegisterKeepsPage(s: State, i: nat, m: nat, img: Image, n: nat, w: nat)
    requires i < |s.cache| && i < |s.snap| && m in s.view && Has(s, n, w)
    ensures KeptPage(s, Register(s, i, m, img), n, w)
  {
  }

  lemma OthersKeepLeaves(s: State, ram: set<nat>, step: Step, n: nat)
    requires Steady(s, ram) && Enabled(s, ram, step) && !Acts(step, n) && n in s.view && !step.SShare?
    requires !step.SRegister?
    ensures n in After(s, ram, step).view && After(s, ram, step).view[n] == s.view[n]
  {
    hide Steady;
  }

  lemma StepKeepsPage(s: State, ram: set<nat>, step: Step, n: nat, w: nat)
    requires Steady(s, ram) && Enabled(s, ram, step) && !Acts(step, n) && Has(s, n, w)
    ensures KeptPage(s, After(s, ram, step), n, w)
    ensures !step.SRegister? ==> SamePage(s, After(s, ram, step), n, w)
  {
    if step.SShare? {
      ShareKeepsPage(s, step.p, step.c, step.v, n, w);
    } else if step.SRegister? {
      RegisterKeepsPage(s, step.i, step.m, step.img, n, w);
    } else {
      OthersKeepLeaves(s, ram, step, n);
    }
  }

  /** Memory changes only in new frames and where a user writes. */
  lemma StepKeepsBytes(s: State, ram: set<nat>, step: Step, n: nat, w: nat)
    requires Steady(s, ram) && Enabled(s, ram, step) && !Acts(step, n) && Private(s, n, w) && s.view[n][w].ppn !in s.shm
    ensures At(After(s, ram, step).mem, s.view[n][w].ppn) == At(s.mem, s.view[n][w].ppn)
  {
    var l := s.view[n][w];
    if l.owned {
      LeafRefIn(s, n, w, l.ppn);
      Referenced(s, multiset{}, MapRef(n, w), l.ppn);
    }
    if step.SWrite? {
      var k := s.view[step.m][step.v];
      if k.ppn !in s.shm {
        WriteIsolated(s, ram, step.m, step.v, step.page);
      }
    }
  }

  /** One step of any other address space leaves what n reads alone: a write, the
      fault that precedes it, fork from or exec of n's own pages included. */
  lemma StepIsolated(s: State, ram: set<nat>, step: Step, n: nat, w: nat)
    requires Steady(s, ram) && Enabled(s, ram, step) && !Acts(step, n)
    requires Private(s, n, w) && s.view[n][w].ppn !in s.shm && !SharesFrame(s, step, s.view[n][w].ppn)
    ensures var s' := After(s, ram, step);
            Private(s', n, w) && KeptPage(s, s', n, w) && s'.view[n][w].ppn !in s'.shm &&
            Reads(s', n, w) == Reads(s, n, w)
  {
    StepKeepsPage(s, ram, step, n, w);
    StepKeepsBytes(s, ram, step, n, w);
  }

  /** The steps can be taken one after another. */
  ghost predicate Runs(s: State, ram: set<nat>, steps: seq<Step>)
    requires Steady(s, ram)
    decreases |steps|
  {
    steps == [] ||
    (Enabled(s, ram, steps[0]) && (StepSteady(s, ram, steps[0]); Runs(After(s, ram, steps[0]), ram, steps[1..])))
  }

  ghost function EndOf(s: State, ram: set<nat>, steps: seq<Step>): State
    requires Steady(s, ram) && Runs(s, ram, steps)
    decreases |steps|
  {
    if steps == [] then s
    else StepSteady(s, ram, steps[0]); EndOf(After(s, ram, steps[0]), ram, steps[1..])
  }

  /** Conservation, isolation and pristine images over every run. */
  lemma {:induction false} RunSteady(s: State, ram: set<nat>, steps: seq<Step>)
    requires Steady(s, ram) && Runs(s, ram, steps)
    ensures Steady(EndOf(s, ram, steps), ram)
    decreases |steps|
  {
    if steps != [] {
      StepSteady(s, ram, steps[0]);
      RunSteady(After(s, ram, steps[0]), ram, steps[1..]);
    }
  }

  /** No step of the run makes this frame one of MAP_SHARED memory. */
  ghost predicate NeverShared(s: State, ram: set<nat>, steps: seq<Step>, f: nat)
    requires Steady(s, ram) && Runs(s, ram, steps)
    decreases |steps|
  {
    steps == [] ||
    (!SharesFrame(s, steps[0], f) &&
     (StepSteady(s, ram, steps[0]); NeverShared(After(s, ram, steps[0]), ram, steps[1..], f)))
  }

  /** Copy-on-write isolation over every run: whatever the others do, MAP_SHARED memory of
      other frames included, an address space that does nothing itself keeps reading the same
      bytes. */
  lemma {:induction false} RunIsolated(s: State, ram: set<nat>, steps: seq<Step>, n: nat, w: nat)
    requires Steady(s, ram) && Runs(s, ram, steps) && Private(s, n, w) && s.view[n][w].ppn !in s.shm
    requires forall k :: 0 <= k < |steps| ==> !Acts(steps[k], n)
    requires NeverShared(s, ram, steps, s.view[n][w].ppn)
    ensures var s' := EndOf(s, ram, steps); KeptPage(s, s', n, w) && Reads(s', n, w) == Reads(s, n, w)
    decreases |steps|
  {
    if steps != [] {
      StepSteady(s, ram, steps[0]);
      StepIsolated(s, ram, steps[0], n, w);
      RunIsolated(After(s, ram, steps[0]), ram, steps[1..], n, w);
    }
  }

  /** These steps lead from s to s'. */
  ghost predicate Taken(s: State, ram: set<nat>, steps: seq<Step>, s': State) {
    Steady(s, ram) && Runs(s, ram, steps) && EndOf(s, ram, steps) == s'
  }

  lemma TakenOne(s: State, ram: set<nat>, step: Step)
    requires Steady(s, ram) && Enabled(s, ram, step)
    ensures Taken(s, ram, [step], After(s, ram, step)) && Steady(After(s, ram, step), ram)
  {
    StepSteady(s, ram, step);
    var s' := After(s, ram, step);
    assert [step][1..] == [];
    assert Runs(s', ram, []) && EndOf(s', ram, []) == s';
  }

  lemma {:induction false} TakenThen(s: State, ram: set<nat>, a: seq<Step>, s1: State, b: seq<Step>, s2: State)
    requires Taken(s, ram, a, s1) && Taken(s1, ram, b, s2)
    ensures Taken(s, ram, a + b, s2)
    decreases |a|
  {
    if a == [] {
      assert a + b == b;
    } else {
      StepSteady(s, ram, a[0]);
      var t := After(s, ram, a[0]);
      TakenThen(t, ram, a[1..], s1, b, s2);
      assert (a + b)[1..] == a[1..] + b;
    }
  }

  /** Everything reachable is steady. */
  lemma TakenSteady(s: State, ram: set<nat>, steps: seq<Step>, s': State)
    requires Taken(s, ram, steps, s')
    ensures Steady(s', ram)
  {
    RunSteady(s, ram, steps);
  }

  /** The frame of an owned leaf is live. */
  lemma OwnedLive(s: State, ram: set<nat>, m: nat, v: nat)
    requires Steady(s, ram) && Has(s, m, v) && s.view[m][v].owned
    ensures s.view[m][v].ppn in s.refs && s.view[m][v].ppn in ram
  {
    LeafRefIn(s, m, v, s.view[m][v].ppn);
    Referenced(s, multiset{}, MapRef(m, v), s.view[m][v].ppn);
  }

  // ----------------------------------------------- steps on one page of one space

  /** The step changes no page but page v of m, and no bytes but a new frame's. */
  predicate Quiet(step: Step, m: nat, v: nat) {
    match step
    case SScribble(f, page) => true
    case SFresh(n, w, f, page, rw) => n == m && w == v
    case SShare(p, c, w) => c == m && w == v
    case SShm(p, c, w) => c == m && w == v
    case SShmFault(n, w) => n == m && w == v
    case SReuse(n, w) => n == m && w == v
    case _ => false
  }

  lemma QuietBytes(s: State, ram: set<nat>, step: Step, m: nat, v: nat, n: nat, w: nat)
    requires Steady(s, ram) && Enabled(s, ram, step) && Quiet(step, m, v) && Private(s, n, w)
    ensures At(After(s, ram, step).mem, s.view[n][w].ppn) == At(s.mem, s.view[n][w].ppn)
  {
    if s.view[n][w].owned {
      OwnedLive(s, ram, n, w);
    }
  }

  lemma QuietPages(s: State, ram: set<nat>, step: Step, m: nat, v: nat, n: nat, w: nat)
    requires Steady(s, ram) && Enabled(s, ram, step) && Quiet(step, m, v) && Has(s, n, w) && !(n == m && w == v)
    ensures SamePage(s, After(s, ram, step), n, w)
  {
    if n != m {
      StepKeepsPage(s, ram, step, n, w);
    } else if step.SShare? {
      ShareInChild(s, step.p, step.c, step.v, w);
    } else {
      QuietInSpace(s, ram, step, m, v, w);
    }
  }

  lemma ShareInChild(s: State, p: nat, c: nat, v: nat, w: nat)
    requires CanShare(s, p, c, v) && Has(s, c, w) && w != v
    ensures SamePage(s, ForkShare(s, p, c, v), c, w)
  {
    ForkShareOrder(s, p, c, v);
  }

  lemma QuietInSpace(s: State, ram: set<nat>, step: Step, m: nat, v: nat, w: nat)
    requires Steady(s, ram) && Enabled(s, ram, step) && Quiet(step, m, v) && !step.SShare? && Has(s, m, w) && w != v
    ensures SamePage(s, After(s, ram, step), m, w)
  {
  }

  /** Over any run of such steps every other private page keeps its bytes. */
  lemma {:induction false} QuietRun(s: State, ram: set<nat>, steps: seq<Step>, s': State, m: nat, v: nat, n: nat,
                                    w: nat)
    requires Taken(s, ram, steps, s') && Private(s, n, w) && !(n == m && w == v)
    requires forall k :: 0 <= k < |steps| ==> Quiet(steps[k], m, v)
    ensures Private(s', n, w) && Reads(s', n, w) == Reads(s, n, w) && SamePage(s, s', n, w)
    decreases |steps|
  {
    if steps != [] {
      StepSteady(s, ram, steps[0]);
      QuietBytes(s, ram, steps[0], m, v, n, w);
      QuietPages(s, ram, steps[0], m, v, n, w);
      QuietRun(After(s, ram, steps[0]), ram, steps[1..], s', m, v, n, w);
    }
  }

  /** Away from page v of m the same pages are mapped to the same frames. */
  ghost predicate Elsewhere(s: State, s': State, m: nat, v: nat) {
    forall n: nat, w: nat {:trigger Has(s', n, w)} {:trigger Has(s, n, w)} :: !(n == m && w == v) ==>
      (Has(s', n, w) <==> Has(s, n, w)) && (Has(s, n, w) ==> SamePage(s, s', n, w))
  }

  lemma QuietElsewhere(s: State, ram: set<nat>, step: Step, m: nat, v: nat)
    requires Steady(s, ram) && Enabled(s, ram, step) && Quiet(step, m, v)
    ensures Elsewhere(s, After(s, ram, step), m, v)
  {
    var t := After(s, ram, step);
    forall n: nat, w: nat | !(n == m && w == v)
      ensures (Has(t, n, w) <==> Has(s, n, w)) && (Has(s, n, w) ==> SamePage(s, t, n, w))
    {
      if Has(s, n, w) {
        QuietPages(s, ram, step, m, v, n, w);
      } else {
        QuietAbsent(s, ram, step, m, v, n, w);
      }
    }
  }

  lemma QuietAbsent(s: State, ram: set<nat>, step: Step, m: nat, v: nat, n: nat, w: nat)
    requires Steady(s, ram) && Enabled(s, ram, step) && Quiet(step, m, v) && !Has(s, n, w) && !(n == m && w == v)
    ensures !Has(After(s, ram, step), n, w)
  {
    if step.SShare? {
      ForkShareOrder(s, step.p, step.c, step.v);
    }
  }

  lemma {:induction false} QuietRunElsewhere(s: State, ram: set<nat>, steps: seq<Step>, s': State, m: nat, v: nat)
    requires Taken(s, ram, steps, s') && forall k :: 0 <= k < |steps| ==> Quiet(steps[k], m, v)
    ensures Elsewhere(s, s', m, v) && s'.cache == s.cache
    decreases |steps|
  {
    if steps != [] {
      StepSteady(s, ram, steps[0]);
      var t := After(s, ram, steps[0]);
      QuietElsewhere(s, ram, steps[0], m, v);
      QuietRunElsewhere(t, ram, steps[1..], s', m, v);
      ElsewhereTrans(s, t, s', m, v);
    }
  }

  lemma ElsewhereTrans(s: State, t: State, s': State, m: nat, v: nat)
    requires Elsewhere(s, t, m, v) && Elsewhere(t, s', m, v)
    ensures Elsewhere(s, s', m, v)
  {
    forall n: nat, w: nat | !(n == m && w == v)
      ensures (Has(s', n, w) <==> Has(s, n, w)) && (Has(s, n, w) ==> SamePage(s, s', n, w))
    {
      assert Has(t, n, w) <==> Has(s, n, w);
    }
  }
}
