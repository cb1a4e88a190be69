/**
mm_dup_ensure_brk_copied: the second pass of fork, over the pages of brk. It forks what the walk
left, without protecting the parent.
*/
module MmBrk {
  import opened Basics
  import opened PageTables
  import opened MmTables
  import opened FrameSharing
  import opened MmLifecycle
  import opened AddressSpaces
  import opened CowFork
  import opened MmFork
  import VmaProbe

  type Areas = VmaProbe.Areas

  /** The pages of brk as the second pass counts them: its range rounded outwards. */
  function BrkFirst(a: Areas): nat { a.brk.base / 4096 }

  function BrkEnd(a: Areas): nat {
    var hi := (VmaProbe.BrkHi(a.brk) + 4095) / 4096;
    if a.brk.base == 0 || VmaProbe.BrkHi(a.brk) <= a.brk.base then BrkFirst(a) else if hi > LIMIT then LIMIT else hi
  }

  predicate InPass(a: Areas, u: nat) { BrkFirst(a) <= u < BrkEnd(a) }

  // ------------------------------------------------- one page, from any state

  /** The pass does not leave page u alone. Unowned identity pages are not modelled. */
  ghost predicate Forks(s: State, p: nat, c: nat, u: nat) {
    Has(s, p, u) && s.view[p][u].ppn < LIMIT && (s.view[p][u].owned || s.view[p][u].ppn != u) &&
    (Has(s, c, u) && s.view[c][u].owned ==> s.view[c][u].ppn == u)
  }

  /** The child already holds this very frame there. */
  ghost predicate HeldTwice(s: State, p: nat, c: nat, u: nat)
    requires Has(s, p, u)
  {
    Has(s, c, u) && s.view[c][u].owned && s.view[c][u].ppn == s.view[p][u].ppn
  }

  /** The branches that go wrong: the same frame is shared again, or a writable frame of the
      parent's is shared and the parent stays writable. */
  ghost predicate Breaks(s: State, p: nat, c: nat, u: nat, shared: bool)
    requires Has(s, p, u)
  {
    var l := s.view[p][u];
    (shared || !Copies(l, u)) && (HeldTwice(s, p, c, u) || (!shared && Demanding(s, l)))
  }

  /** What sharing an owned page without protecting the parent leaves. */
  function Reshared(s: State, p: nat, c: nat, u: nat, shared: bool): State
    requires Has(s, p, u) && c in s.view
  {
    var l := s.view[p][u];
    var s1 := if shared then s.(shm := s.shm + {l.ppn}) else s;
    Remap(Retain(s1, l.ppn), c, u, if shared then Leaf(l.ppn, l.rw, false, true) else SharedLeaf(l))
  }

  /** Sharing again keeps references and isolation if and only if no such branch is taken. */
  lemma ResharedSteady(s: State, ram: set<nat>, p: nat, c: nat, u: nat, shared: bool)
    requires Steady(s, ram) && Has(s, p, u) && s.view[p][u].owned && UserMm(s, c) && c != p
    requires (shared ==> !Cached(s, s.view[p][u].ppn)) && (!shared ==> !Copies(s.view[p][u], u))
    ensures Steady(Reshared(s, p, c, u, shared), ram) <==> !Breaks(s, p, c, u, shared)
  {
    if HeldTwice(s, p, c, u) {
      AgainLeaks(s, ram, p, c, u, shared);
    } else if !shared && Demanding(s, s.view[p][u]) {
      UnprotectedShares(s, ram, p, c, u);
    } else {
      ResharedGood(s, ram, p, c, u, shared);
    }
  }

  /** A second reference for one leaf. */
  lemma AgainLeaks(s: State, ram: set<nat>, p: nat, c: nat, u: nat, shared: bool)
    requires Steady(s, ram) && Has(s, p, u) && s.view[p][u].owned && c in s.view && HeldTwice(s, p, c, u)
    ensures !Conserved(Reshared(s, p, c, u, shared), multiset{})
  {
    var f, t := s.view[p][u].ppn, Reshared(s, p, c, u, shared);
    OwnedLive(s, ram, c, u);
    var leaf := t.view[c][u];
    assert leaf.owned && leaf.ppn == f && t.view == s.view[c := SetLeaf(s.view[c], u, Some(leaf))];
    assert t.cache == s.cache && Live(t, f) == Live(s, f) + 1;
    SameRefs(s, t, c, u, f);
    assert Counted(s, multiset{}, f) && !Counted(t, multiset{}, f);
  }

  lemma SameRefs(s: State, t: State, c: nat, u: nat, f: nat)
    requires Has(s, c, u) && Has(t, c, u) && t.cache == s.cache
    requires t.view == s.view[c := SetLeaf(s.view[c], u, Some(t.view[c][u]))]
    requires s.view[c][u].owned && t.view[c][u].owned && s.view[c][u].ppn == f == t.view[c][u].ppn
    ensures Refs(t, f) == Refs(s, f)
  {
    forall r: Ref
      ensures r in LeafRefs(t.view, f) <==> r in LeafRefs(s.view, f)
    {
      if r.MapRef? {
        LeafRefIn(t, r.m, r.v, f);
        LeafRefIn(s, r.m, r.v, f);
      }
    }
  }

  /** A writable frame with two users. */
  lemma UnprotectedShares(s: State, ram: set<nat>, p: nat, c: nat, u: nat)
    requires Steady(s, ram) && Has(s, p, u) && Demanding(s, s.view[p][u]) && c in s.view && c != p
    requires !HeldTwice(s, p, c, u)
    ensures !Isolated(Reshared(s, p, c, u, false))
  {
    var l, t := s.view[p][u], Reshared(s, p, c, u, false);
    OwnedLive(s, ram, p, u);
    assert Exclusive(s, p, u) && t.view[p][u] == l;
    assert Live(t, l.ppn) == 2;
    assert !Exclusive(t, p, u);
  }

  lemma ResharedGood(s: State, ram: set<nat>, p: nat, c: nat, u: nat, shared: bool)
    requires Steady(s, ram) && Has(s, p, u) && s.view[p][u].owned && UserMm(s, c)
    requires !HeldTwice(s, p, c, u) && (shared ==> !Cached(s, s.view[p][u].ppn))
    requires !shared ==> !Demanding(s, s.view[p][u])
    ensures Steady(Reshared(s, p, c, u, shared), ram)
  {
    var l := s.view[p][u];
    var f := l.ppn;
    var s1 := if shared then s.(shm := s.shm + {f}) else s;
    var leaf := if shared then Leaf(f, l.rw, false, true) else SharedLeaf(l);
    OwnedLive(s, ram, p, u);
    if shared {
      ShmGood(s, ram, multiset{}, f);
      RetainShared(s1, ram, f);
    } else {
      assert MapRef(p, u) in Refs(s, f);
      RetainGood(s, ram, multiset{}, f, MapRef(p, u));
      assert multiset{} + multiset{f} == multiset{f};
    }
    TakeOver(Retain(s1, f), ram, c, u, leaf);
  }

  /** A reference in transit goes to a leaf that replaces another. */
  lemma TakeOver(s: State, ram: set<nat>, c: nat, u: nat, leaf: Leaf)
    requires Good(s, ram, multiset{leaf.ppn}) && c in s.view && c != KERNEL && u < LIMIT && leaf.owned
    requires !Demanding(s, leaf) && (Has(s, c, u) && s.view[c][u].owned ==> s.view[c][u].ppn != leaf.ppn)
    ensures Good(Remap(s, c, u, leaf), ram, multiset{})
  {
    var was := LeafIn(s, c, u);
    InstallGood(s, ram, multiset{leaf.ppn}, c, u, Some(leaf));
    assert multiset{leaf.ppn} + Owing(was) - Owing(Some(leaf)) == multiset{} + Owing(was);
    if was.Some? && was.value.ppn == leaf.ppn {
      assert multiset{} + Owing(was) == multiset{};
    } else {
      DropGood(Install(s, c, u, Some(leaf)), ram, multiset{}, was);
    }
  }

  /** Where nothing breaks, and the child owns nothing there, it is fork's own step. */
  lemma ResharedTaken(s: State, ram: set<nat>, p: nat, c: nat, u: nat, shared: bool)
    requires Steady(s, ram) && Has(s, p, u) && s.view[p][u].owned && UserMm(s, c) && UserMm(s, p) && c != p
    requires Unowned(LeafIn(s, c, u)) && (shared ==> !Cached(s, s.view[p][u].ppn))
    requires !shared ==> !Copies(s.view[p][u], u) && !s.view[p][u].rw
    ensures var step := if shared then SShm(p, c, u) else SShare(p, c, u);
            Taken(s, ram, [step], Reshared(s, p, c, u, shared)) &&
            LeafForked(s, ram, [step], Reshared(s, p, c, u, shared), p, c, u, shared)
  {
    var l := s.view[p][u];
    OwnedLive(s, ram, p, u);
    if shared {
      RemapFree(Retain(s.(shm := s.shm + {l.ppn}), l.ppn), c, u, Leaf(l.ppn, l.rw, false, true));
      TakenOne(s, ram, SShm(p, c, u));
    } else {
      RemapFree(Retain(s, l.ppn), c, u, SharedLeaf(l));
      var t := Reshared(s, p, c, u, false);
      if Writable(l) {
        assert l == l.(rw := false, cow := true);
        assert t.view[p][u := l] == t.view[p] && t.view[p := t.view[p]] == t.view;
        assert Protect(t, p, u) == t;
      }
      TakenOne(s, ram, SShare(p, c, u));
    }
  }

  ghost predicate BrkPair(k: Kernel, p: nat, c: nat, u: nat, pte: Entry)
    reads k, k.st, k.ft
  {
    k.Valid() && Steady(k.S(), k.ft.ram) && p in k.st.mms && c in k.st.mms && p != c && u < LIMIT &&
    UserMm(k.S(), c) && Has(k.S(), p, u) && k.view[p][u] == ToLeaf(pte) && pte.owned && pte.ppn < LIMIT
  }

  /** The child gets a copy. */
  method BrkCopy(k: Kernel, p: nat, c: nat, u: nat, pte: Entry) returns (ok: bool, ghost steps: seq<Step>)
    requires BrkPair(k, p, c, u, pte)
    modifies k`view, k`shm, k.st, k.ft
    ensures k.Valid() && SameMms(old(k.st.mms), k.st.mms) && k.st.mms.Keys == old(k.st.mms.Keys)
    ensures ok ==> Renewed(old(k.S()), k.ft.ram, steps, k.S(), c, u, old(Reads(k.S(), p, u)))
    ensures !ok ==> Taken(old(k.S()), k.ft.ram, steps, k.S()) && OnlyScribbles(steps)
    ensures !ok ==> |k.st.heap| == 0 || NoFrame(k, u)
  {
    hide TableStore.Valid, FrameTable.Valid, Views, Steady, Taken, Renewed, Remap, Idled, OnlyScribbles;
    ghost var s0 := k.S();
    CopySource(s0, k.ft.ram, p, u);
    ghost var s1;
    var r;
    r, s1 := CopyToNew(k, u, pte.ppn);
    if r.None? {
      steps := IdledOnly(s0, k.ft.ram, s1);
      return false, steps;
    }
    ok, steps := MapNew(k, c, u, r.value, ForkFlags(pte).(cow := false, owned := true, rw := true), s0, s1,
                        At(s0.mem, pte.ppn));
  }

  /** Noting shared memory before or after is the same. */
  lemma ResharedIs(s: State, p: nat, c: nat, u: nat, shared: bool, leaf: Leaf)
    requires Has(s, p, u) && c in s.view
    requires leaf == if shared then Leaf(s.view[p][u].ppn, s.view[p][u].rw, false, true) else SharedLeaf(s.view[p][u])
    ensures var t := Remap(Retain(s, leaf.ppn), c, u, leaf);
            Reshared(s, p, c, u, shared) == if shared then t.(shm := t.shm + {leaf.ppn}) else t
  {
  }

  /** Take a reference and map the frame in the child, or neither. */
  method RetainMap(k: Kernel, p: nat, c: nat, u: nat, pte: Entry, flags: Entry) returns (ok: bool)
    requires BrkPair(k, p, c, u, pte) && flags.owned
    modifies k`view, k.st, k.ft
    ensures k.Valid() && SameMms(old(k.st.mms), k.st.mms) && k.st.mms.Keys == old(k.st.mms.Keys)
    ensures k.S() == if ok then Remap(Retain(old(k.S()), pte.ppn), c, u, Leaf(pte.ppn, flags.rw, flags.cow, true))
                     else old(k.S())
    ensures !ok ==> |k.st.heap| == 0
  {
    hide TableStore.Valid, FrameTable.Valid, Views, Steady, Remap, SameMms, Retain;
    ghost var s0 := k.S();
    RetainLeaf(k, p, u, pte);
    ok := k.MapPage(c, u, pte.ppn, flags);
    if !ok {
      k.ft.Release(pte.ppn);
      RetainRelease(s0, k.ft.ram, pte.ppn);
    }
  }

  /** The child gets the frame. */
  method BrkShare(k: Kernel, p: nat, c: nat, u: nat, pte: Entry, shared: bool) returns (ok: bool)
    requires BrkPair(k, p, c, u, pte)
    modifies k`view, k`shm, k.st, k.ft
    ensures k.Valid() && SameMms(old(k.st.mms), k.st.mms) && k.st.mms.Keys == old(k.st.mms.Keys)
    ensures k.S() == if ok then Reshared(old(k.S()), p, c, u, shared) else old(k.S())
    ensures !ok ==> |k.st.heap| == 0
  {
    hide TableStore.Valid, FrameTable.Valid, Views, Steady, Remap, SameMms, Reshared, Retain;
    var flags := if shared then ForkFlags(pte).(cow := false) else ShareFlags(pte);
    ResharedIs(k.S(), p, c, u, shared, Leaf(pte.ppn, flags.rw, flags.cow, true));
    ok := RetainMap(k, p, c, u, pte, flags);
    if ok && shared {
      k.shm := k.shm + {pte.ppn};
    }
  }

  /** An owned page: mm_fork_copy_user_leaf with protect_parent 0. */
  method BrkLeaf(k: Kernel, p: nat, c: nat, u: nat, pte: Entry, shared: bool) returns (ok: bool, ghost steps: seq<Step>)
    requires BrkPair(k, p, c, u, pte)
    modifies k`view, k`shm, k.st, k.ft
    ensures k.Valid() && SameMms(old(k.st.mms), k.st.mms) && k.st.mms.Keys == old(k.st.mms.Keys)
    ensures ok && (shared || !Copies(ToLeaf(pte), u)) ==> k.S() == Reshared(old(k.S()), p, c, u, shared)
    ensures ok && !shared && Copies(ToLeaf(pte), u) ==>
              Renewed(old(k.S()), k.ft.ram, steps, k.S(), c, u, old(Reads(k.S(), p, u)))
    ensures !ok ==> Taken(old(k.S()), k.ft.ram, steps, k.S()) && OnlyScribbles(steps)
    ensures !ok ==> |k.st.heap| == 0 || NoFrame(k, u)
  {
    hide TableStore.Valid, FrameTable.Valid, Views, Steady, Taken, Renewed, Reshared;
    TakenNone(k.S(), k.ft.ram);
    steps := [];
    if !shared && (pte.rw || pte.cow) && PrimaryStack(u) {
      ok, steps := BrkCopy(k, p, c, u, pte);
    } else {
      ok := BrkShare(k, p, c, u, pte, shared);
    }
  }

  /** A page that is shared, as a full scan of the areas tells. */
  ghost predicate SharedAt(a: Areas, u: nat) {
    VmaProbe.ScanOf(a.list, a.gCnt, u * 4096, u * 4096 + 1).shared
  }

  /** One page of the pass, from any state between operations. Sharing a page that the parent
      owns leaves such a state if and only if no branch that breaks is taken. */
  method BrkStep(k: Kernel, p: nat, c: nat, a: Areas, u: nat) returns (ok: bool, ghost steps: seq<Step>)
    requires k.Valid() && Steady(k.S(), k.ft.ram) && p in k.st.mms && c in k.st.mms && p != c && u < LIMIT
    requires Has(k.S(), p, u) && SharedAt(a, u) ==> !Cached(k.S(), k.view[p][u].ppn)
    requires Has(k.S(), p, u) && !k.view[p][u].owned && k.view[p][u].ppn != u ==>
               (Has(k.S(), c, u) && k.view[c][u].owned ==> k.view[c][u].ppn != u)
    modifies k`view, k`shm, k.st, k.ft
    ensures k.Valid() && SameMms(old(k.st.mms), k.st.mms) && k.st.mms.Keys == old(k.st.mms.Keys)
    ensures !old(Forks(k.S(), p, c, u)) ==> ok && k.S() == old(k.S()) && steps == []
    ensures ok && old(Forks(k.S(), p, c, u)) && old(k.view[p][u].owned) ==>
              (Steady(k.S(), k.ft.ram) <==> !old(Breaks(k.S(), p, c, u, SharedAt(a, u))))
    ensures ok && old(Forks(k.S(), p, c, u)) && old(Unowned(LeafIn(k.S(), c, u))) &&
            !(old(k.view[p][u].owned) && old(Risky(k.view[p][u], u, a))) ==>
              (k.S() == old(k.S()) && steps == [] && !old(k.view[p][u].owned)) ||
              LeafForked(old(k.S()), k.ft.ram, steps, k.S(), p, c, u, SharedAt(a, u))
    ensures !ok ==> Taken(old(k.S()), k.ft.ram, steps, k.S()) && OnlyScribbles(steps)
    ensures !ok ==> |k.st.heap| == 0 || NoFrame(k, u)
  {
    hide TableStore.Valid, FrameTable.Valid, Views, Steady, Taken, Cached, LeafForked, OnlyScribbles, Breaks, Reshared;
    hide VmaProbe.ScanOf, VmaProbe.Scanned;
    ghost var s := k.S();
    steps := [];
    var o := ReadLeaf(k, p, u);
    if o.None? || !o.value.us || o.value.ppn >= LIMIT {
      return true, steps;
    }
    var pte := o.value;
    var q := ReadLeaf(k, c, u);
    if q.Some? && q.value.us && q.value.owned && q.value.ppn != u {
      return true, steps;
    }
    if !pte.owned && pte.ppn == u {
      return true, steps;
    }
    var f := VmaProbe.PageExact(a.list, a.gCnt, u * 4096);
    VmaProbe.ScanIs(a.list, a.gCnt, u * 4096, u * 4096 + 1, f);
    if !pte.owned {
      ok, steps := ForkLeaf(k, p, c, u, pte, f.shared);
      return;
    }
    ok, steps := BrkLeaf(k, p, c, u, pte, f.shared);
    if ok {
      steps := BrkDone(s, k.ft.ram, steps, k.S(), p, c, u, a);
    }
  }

  /** The page would be shared writable, and the parent not protected. */
  ghost predicate Risky(l: Leaf, u: nat, a: Areas) {
    l.rw && !PrimaryStack(u) && !VmaProbe.ScanOf(a.list, a.gCnt, u * 4096, u * 4096 + 1).shared
  }

  lemma BrkDone(s: State, ram: set<nat>, steps: seq<Step>, s': State, p: nat, c: nat, u: nat, a: Areas)
    returns (all: seq<Step>)
    requires Steady(s, ram) && Has(s, p, u) && s.view[p][u].owned && UserMm(s, c) && UserMm(s, p) && c != p
    requires SharedAt(a, u) ==> !Cached(s, s.view[p][u].ppn)
    requires SharedAt(a, u) || !Copies(s.view[p][u], u) ==> s' == Reshared(s, p, c, u, SharedAt(a, u))
    requires !SharedAt(a, u) && Copies(s.view[p][u], u) ==> Renewed(s, ram, steps, s', c, u, Reads(s, p, u))
    ensures Steady(s', ram) <==> !Breaks(s, p, c, u, SharedAt(a, u))
    ensures Unowned(LeafIn(s, c, u)) && !Risky(s.view[p][u], u, a) ==>
              LeafForked(s, ram, all, s', p, c, u, SharedAt(a, u))
  {
    hide Steady, Reshared, Renewed, Taken, Cached, VmaProbe.ScanOf;
    var shared := SharedAt(a, u);
    all := steps;
    if !shared && Copies(s.view[p][u], u) {
      RenewedTaken(s, ram, steps, s', c, u, Reads(s, p, u));
      TakenSteady(s, ram, steps, s');
    } else {
      ResharedSteady(s, ram, p, c, u, shared);
      if Unowned(LeafIn(s, c, u)) && !Risky(s.view[p][u], u, a) {
        ResharedTaken(s, ram, p, c, u, shared);
        all := [if shared then SShm(p, c, u) else SShare(p, c, u)];
      }
    }
  }

  // ------------------------------------------------------ the pass inside fork

  /** An owned page of brk that the pass leaves or shares rightly: not the identity, and in the
      walk's range unless sharing it needs no protection. */
  ghost predicate ReadyAt(l: Leaf, u: nat, a: Areas) {
    l.ppn != u && (FORK_LO <= u < FORK_HI || !Risky(l, u, a))
  }

  ghost predicate BrkReady(s: State, p: nat, a: Areas) {
    forall u: nat {:trigger Has(s, p, u)} :: Has(s, p, u) && InPass(a, u) && s.view[p][u].owned ==>
      ReadyAt(s.view[p][u], u, a)
  }

  /** No span with a page of brk is passed over. */
  lemma BrkVisited(a: Areas, u: nat)
    requires InPass(a, u)
    ensures !VmaProbe.SpanFree(a, u)
  {
    var lo := VmaProbe.SpanBase(u) * 4096;
    assert lo <= u * 4096 && u * 4096 + 4096 <= lo + 0x20_0000;
    assert a.brk.base < u * 4096 + 4096 && u * 4096 < VmaProbe.BrkHi(a.brk);
  }

  /** After the walk the child owns every page of brk in its range that the parent owns; no page
      of brk that the pass forks breaks anything. */
  lemma BrkOwned(s0: State, s: State, p: nat, c: nat, a: Areas, u: nat)
    requires HalfForked(s0, s, p, c, a, LIMIT) && BrkReady(s0, p, a) && InPass(a, u) && Has(s, p, u)
    ensures Has(s0, p, u) && s0.view[p][u].ppn == s.view[p][u].ppn && s0.view[p][u].owned == s.view[p][u].owned
    ensures s.view[p][u].owned && FORK_LO <= u < FORK_HI ==> !Forks(s, p, c, u)
    ensures s.view[p][u].owned && !(FORK_LO <= u < FORK_HI) ==> !Risky(s.view[p][u], u, a) && !Carried(s0, p, u, a)
    ensures s.view[p][u].owned ==> s.view[p][u].ppn != u
    ensures s.view[p][u].owned && Has(s, c, u) && s.view[c][u].owned ==> s.view[c][u].ppn != u
    ensures !s.view[p][u].owned && Has(s, c, u) && s.view[c][u].owned && s.view[p][u].ppn != u ==> s.view[c][u].ppn != u
    ensures !s.view[p][u].owned ==> !Carried(s0, p, u, a)
  {
    hide VmaProbe.SpanFree, VmaProbe.ScanOf, VmaProbe.PageScan, Scrubbed;
    assert SamePage(s0, s, p, u) && ApartAt(s0, s, p, c, u);
    assert LeafIn(s, c, u) == LeafIn(s, c, u);
    if s.view[p][u].owned && FORK_LO <= u < FORK_HI {
      assert Carried(s0, p, u, a);
      BrkVisited(a, u);
      assert Inherited(s0, s, p, c, a, u);
    }
  }

  lemma ExactShared(a: Areas, u: nat)
    requires SharedAt(a, u)
    ensures VmaProbe.PageScan(a, u).shared
  {
    var v := a.list;
    var i :| 0 <= i < |v| && VmaProbe.Hits(v[i], u * 4096, u * 4096 + 1) && v[i].kind.Shm?;
    assert VmaProbe.Hits(v[i], u * 4096, u * 4096 + if a.full then 1 else 4096);
  }

  /** One page of the pass inside fork. Nothing is done where the walk has been. */
  method BrkOne(k: Kernel, p: nat, c: nat, a: Areas, u: nat, ghost s0: State) returns (ok: bool, ghost steps: seq<Step>)
    requires k.Valid() && Steady(k.S(), k.ft.ram) && p in k.st.mms && c in k.st.mms && p != c
    requires InPass(a, u) && BrkReady(s0, p, a)
    requires HalfForked(s0, k.S(), p, c, a, LIMIT) && SharedApart(s0, p, a)
    modifies k`view, k`shm, k.st, k.ft
    ensures k.Valid() && SameMms(old(k.st.mms), k.st.mms) && k.st.mms.Keys == old(k.st.mms.Keys)
    ensures Taken(old(k.S()), k.ft.ram, steps, k.S()) && k.cache == old(k.cache)
    ensures old(Has(k.S(), p, u)) && old(k.view[p][u].owned) && FORK_LO <= u < FORK_HI ==> k.S() == old(k.S())
    ensures ok ==> HalfForked(s0, k.S(), p, c, a, LIMIT)
    ensures !ok ==> Undisturbed(s0, k.S(), c) && c in k.view && p in k.view && Starved(k, p)
  {
    hide TableStore.Valid, FrameTable.Valid, Views, Steady, Taken, HalfForked, SameMms;
    hide Cached, LeafForked, Undisturbed, OnlyScribbles, Breaks, Risky, SharedAt, BrkReady;
    hide VmaProbe.SpanFree, Carried;
    ghost var s := k.S();
    HalfUndisturbed(s0, s, p, c, a, LIMIT);
    TakenNone(s, k.ft.ram);
    if Has(s, p, u) {
      BrkOwned(s0, s, p, c, a, u);
      if SharedAt(a, u) { SharedUncached(s0, s, p, c, a, u); }
    }
    ok, steps := BrkStep(k, p, c, a, u);
    if ok {
      if Forks(s, p, c, u) && LeafForked(s, k.ft.ram, steps, k.S(), p, c, u, SharedAt(a, u)) {
        if SharedAt(a, u) { ExactShared(a, u); }
        ForkOneMore(s0, k.ft.ram, s, steps, k.S(), p, c, a, u, LIMIT, LIMIT, SharedAt(a, u));
        ForkedTaken(s, k.ft.ram, steps, k.S(), p, c, u, SharedAt(a, u));
      }
    } else {
      ForkFailed(s0, k.ft.ram, s, steps, k.S(), p, c, a, LIMIT);
      assert |k.st.heap| == 0 || Lacking(k, p, u);
    }
  }

  lemma ForkedTaken(s: State, ram: set<nat>, steps: seq<Step>, s': State, p: nat, c: nat, u: nat, shared: bool)
    requires Has(s, p, u) && LeafForked(s, ram, steps, s', p, c, u, shared) && p != c
    ensures Taken(s, ram, steps, s') && s'.cache == s.cache
  {
    ForkedReads(s, ram, steps, s', p, c, u, shared);
    QuietRunElsewhere(s, ram, steps, s', c, u);
  }

  lemma SharedUncached(s0: State, s: State, p: nat, c: nat, a: Areas, u: nat)
    requires HalfForked(s0, s, p, c, a, LIMIT) && SharedApart(s0, p, a) && Has(s, p, u) && SharedAt(a, u)
    ensures !Cached(s, s.view[p][u].ppn)
  {
    hide SharedAt, VmaProbe.PageScan;
    ExactShared(a, u);
    assert SamePage(s0, s, p, u);
    CachedAlike(s0, s, s.view[p][u].ppn);
  }

  /** mm_dup_ensure_brk_copied, after the walk. */
  method BrkPass(k: Kernel, p: nat, c: nat, a: Areas, ghost s0: State) returns (ok: bool, ghost steps: seq<Step>)
    requires k.Valid() && Steady(k.S(), k.ft.ram) && p in k.st.mms && c in k.st.mms && p != c
    requires BrkReady(s0, p, a) && HalfForked(s0, k.S(), p, c, a, LIMIT) && SharedApart(s0, p, a)
    modifies k`view, k`shm, k.st, k.ft
    ensures k.Valid() && SameMms(old(k.st.mms), k.st.mms) && k.st.mms.Keys == old(k.st.mms.Keys)
    ensures Taken(old(k.S()), k.ft.ram, steps, k.S()) && Undisturbed(s0, k.S(), c) && c in k.view && p in k.view
    ensures ok ==> HalfForked(s0, k.S(), p, c, a, LIMIT)
    ensures !ok ==> Starved(k, p)
  {
    hide TableStore.Valid, FrameTable.Valid, Views, Steady, Taken, HalfForked;
    hide SharedApart, Undisturbed, BrkReady, BrkFirst, BrkEnd;
    ghost var s1 := k.S();
    HalfUndisturbed(s0, s1, p, c, a, LIMIT);
    TakenNone(s1, k.ft.ram);
    steps := [];
    ok := true;
    ghost var mms0 := k.st.mms;
    var u := BrkFirst(a);
    while u < BrkEnd(a)
      invariant BrkFirst(a) <= u && k.Valid() && ok
      invariant SameMms(mms0, k.st.mms) && k.st.mms.Keys == mms0.Keys
      invariant Taken(s1, k.ft.ram, steps, k.S()) && HalfForked(s0, k.S(), p, c, a, LIMIT)
    {
      ghost var s := k.S();
      ghost var more;
      TakenSteady(s1, k.ft.ram, steps, s);
      var mms1 := k.st.mms;
      ok, more := BrkOne(k, p, c, a, u, s0);
      SameMmsTrans(mms0, mms1, k.st.mms);
      TakenThen(s1, k.ft.ram, steps, s, more, k.S());
      steps := steps + more;
      if !ok {
        return;
      }
      u := u + 1;
    }
    HalfUndisturbed(s0, k.S(), p, c, a, LIMIT);
  }

  // ----------------------------------------------------- where the pass breaks

  const BRK_PAGE: nat := 0x900
  const HIGH_PAGE: nat := 0x6_1000
  const HIGH_FRAME: nat := 0x1_2345

  /** What the walk leaves of an owned identity page: parent and child share it. */
  function TwiceState(): State {
    State(map[KERNEL := map[], 1 := map[BRK_PAGE := Leaf(BRK_PAGE, false, true, true)],
              2 := map[BRK_PAGE := Leaf(BRK_PAGE, false, true, true)]], [], map[BRK_PAGE := 2], map[], {}, [])
  }

  /** A writable page of brk above the walk's range. */
  function OpenState(): State {
    State(map[KERNEL := map[], 1 := map[HIGH_PAGE := Leaf(HIGH_FRAME, true, false, true)], 2 := map[]], [],
          map[HIGH_FRAME := 1], map[], {}, [])
  }

  /** Only brk on record, from page u on. */
  function BrkAreas(u: nat): Areas { VmaProbe.Areas(false, [], 0, [], VmaProbe.Brk(u * 4096, u * 4096)) }

  lemma TwiceCounted(f: nat)
    ensures Counted(TwiceState(), multiset{}, f)
  {
    var s := TwiceState();
    assert SlotRefs(s.cache, f) == {};
    if f == BRK_PAGE {
      assert LeafRefs(s.view, f) == {MapRef(1, BRK_PAGE), MapRef(2, BRK_PAGE)};
      assert Refs(s, f) == {MapRef(1, BRK_PAGE), MapRef(2, BRK_PAGE)};
    } else {
      assert LeafRefs(s.view, f) == {} && Refs(s, f) == {};
    }
  }

  lemma OpenCounted(f: nat)
    ensures Counted(OpenState(), multiset{}, f)
  {
    var s := OpenState();
    assert SlotRefs(s.cache, f) == {};
    if f == HIGH_FRAME {
      assert LeafRefs(s.view, f) == {MapRef(1, HIGH_PAGE)};
      assert Refs(s, f) == {MapRef(1, HIGH_PAGE)};
    } else {
      assert LeafRefs(s.view, f) == {} && Refs(s, f) == {};
    }
  }

  lemma TwiceSteady()
    ensures Steady(TwiceState(), {BRK_PAGE})
  {
    var s := TwiceState();
    forall f ensures Counted(s, multiset{}, f) { TwiceCounted(f); }
    assert Conserved(s, multiset{});
    assert forall m: nat, v: nat :: Has(s, m, v) ==> (m == 1 || m == 2) && v == BRK_PAGE;
    assert s.view[1][BRK_PAGE] == Leaf(BRK_PAGE, false, true, true) == s.view[2][BRK_PAGE];
    assert Isolated(s) && NoStrays(s, {BRK_PAGE}) && Pristine(s) && KernelBare(s) && Bounded(s);
  }

  lemma OpenSteady()
    ensures Steady(OpenState(), {HIGH_FRAME})
  {
    var s := OpenState();
    forall f ensures Counted(s, multiset{}, f) { OpenCounted(f); }
    assert Conserved(s, multiset{});
    assert forall m: nat, v: nat :: Has(s, m, v) ==> m == 1 && v == HIGH_PAGE;
    assert s.view[1][HIGH_PAGE] == Leaf(HIGH_FRAME, true, false, true);
    assert Isolated(s) && NoStrays(s, {HIGH_FRAME}) && Pristine(s) && KernelBare(s) && Bounded(s);
  }

  /** The pass shares the identity page a second time: a reference is left that nothing names. */
  lemma TwiceShared()
    ensures var s, a, u := TwiceState(), BrkAreas(BRK_PAGE), BRK_PAGE;
            Steady(s, {BRK_PAGE}) && InPass(a, u) && Forks(s, 1, 2, u) && !SharedAt(a, u) &&
            Breaks(s, 1, 2, u, false) && !Steady(Reshared(s, 1, 2, u, false), {BRK_PAGE})
  {
    TwiceSteady();
    var s := TwiceState();
    assert s.view[1][BRK_PAGE] == Leaf(BRK_PAGE, false, true, true) == s.view[2][BRK_PAGE];
    hide Steady, Reshared;
    ResharedSteady(s, {BRK_PAGE}, 1, 2, BRK_PAGE, false);
  }

  /** The pass shares the page and leaves the parent writable. */
  lemma OpenShared()
    ensures var s, a, u := OpenState(), BrkAreas(HIGH_PAGE), HIGH_PAGE;
            Steady(s, {HIGH_FRAME}) && InPass(a, u) && Forks(s, 1, 2, u) && !SharedAt(a, u) &&
            Breaks(s, 1, 2, u, false) && !Steady(Reshared(s, 1, 2, u, false), {HIGH_FRAME})
  {
    OpenSteady();
    var s := OpenState();
    assert s.view[1][HIGH_PAGE] == Leaf(HIGH_FRAME, true, false, true);
    hide Steady, Reshared;
    ResharedSteady(s, {HIGH_FRAME}, 1, 2, HIGH_PAGE, false);
  }
}
