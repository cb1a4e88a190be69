/**
mm_dup_user: a new address space, the walk that forks the parent's pages into it, the second
pass over brk, and the scrub of identity leaves in lazily backed areas.
*/
module MmDup {
  import opened Basics
  import opened PageTables
  import opened MmTables
  import opened FrameSharing
  import opened MmLifecycle
  import opened AddressSpaces
  import opened CowFork
  import opened MmFork
  import opened MmBrk
  import VmaProbe
  import MmUnmap

  // ----------------------------------------------------------------- the scrub

  /** Taking an identity leaf of a scrubbed page from the child disturbs nothing that fork settled. */
  lemma ScrubKeeps(s0: State, s: State, ram: set<nat>, p: nat, c: nat, a: Areas, u: nat, gone: set<nat>)
    requires Steady(s, ram) && UserMm(s, c) && p != c && HalfForked(s0, s, p, c, a, LIMIT) && gone <= {u}
    requires Has(s, c, u) && s.view[c][u].ppn == u && Scrubbed(a, u)
    ensures Taken(s, ram, [SPurge(c, gone)], Purge(s, c, gone)) && HalfForked(s0, Purge(s, c, gone), p, c, a, LIMIT)
  {
    TakenOne(s, ram, SPurge(c, gone));
    var t := Purge(s, c, gone);
    hide Taken, Carried, Scrubbed, VmaProbe.SpanFree, Steady;
    assert forall n :: n in s.view && n != c ==> t.view[n] == s.view[n];
    forall w: nat
      ensures LeafIn(t, c, w) == if w in gone then None else LeafIn(s, c, w)
    {
    }
    forall n: nat, w: nat | n != c && Private(s0, n, w)
      ensures Private(t, n, w) && SamePage(s0, t, n, w) && Reads(t, n, w) == Reads(s0, n, w)
    {
      assert Private(s, n, w);
    }
    forall w: nat
      ensures ApartAt(s0, t, p, c, w)
    {
      assert LeafIn(s, c, w) == LeafIn(s, c, w);
    }
    forall w: nat
      ensures (Has(t, p, w) <==> Has(s0, p, w)) && (w >= LIMIT ==> Unowned(LeafIn(t, c, w)))
    {
      assert Has(s, p, w) <==> Has(s0, p, w);
      assert w >= LIMIT ==> Unowned(LeafIn(s, c, w));
    }
    forall w: nat | Has(s0, p, w)
      ensures SamePage(s0, t, p, w) && t.view[p][w] == s.view[p][w]
    {
      assert SamePage(s0, s, p, w);
    }
    forall w: nat | w < LIMIT && Carried(s0, p, w, a)
      ensures Settled(s0, t, p, c, a, w)
    {
      ScrubSettled(s0, s, t, p, c, a, u, w, gone);
    }
  }

  lemma ScrubSettled(s0: State, s: State, t: State, p: nat, c: nat, a: Areas, u: nat, w: nat, gone: set<nat>)
    requires HalfForked(s0, s, p, c, a, LIMIT) && gone <= {u} && w < LIMIT && Carried(s0, p, w, a)
    requires Has(s, c, u) && s.view[c][u].ppn == u && Scrubbed(a, u) && t.mem == s.mem
    requires LeafIn(t, c, w) == if w in gone then None else LeafIn(s, c, w)
    ensures Settled(s0, t, p, c, a, w)
  {
    hide VmaProbe.SpanFree, VmaProbe.PageScan, Scrubbed;
    assert Settled(s0, s, p, c, a, w) && ApartAt(s0, s, p, c, w);
  }

  lemma OnePage(lv: map<nat, Leaf>, u: nat)
    requires 0x200 <= u < LIMIT
    ensures var r := MmUnmap.PageRange(u * 4096, u * 4096 + 4096);
            MmUnmap.Gone(lv, r.0, r.1) == if u in lv && lv[u].ppn < LIMIT then {u} else {}
  {
    var r := MmUnmap.PageRange(u * 4096, u * 4096 + 4096);
    assert r == (u, u + 1);
  }

  /** The child shows page u by identity. */
  ghost predicate Leftover(s: State, c: nat, u: nat) { Has(s, c, u) && s.view[c][u].ppn == u }

  /** No page of the child is new. */
  ghost predicate Fewer(s: State, s': State, c: nat) {
    forall w: nat {:trigger Leftover(s', c, w)} :: Leftover(s', c, w) ==> Leftover(s, c, w)
  }

  /** Lazily backed areas show nothing by identity, so that a first access faults. */
  ghost predicate Clean(s: State, c: nat, a: Areas) {
    forall u: nat {:trigger Leftover(s, c, u)} :: u < LIMIT && Scrubbed(a, u) ==> !Leftover(s, c, u)
  }

  lemma PurgeFewer(s: State, c: nat, gone: set<nat>)
    requires c in s.view
    ensures Fewer(s, Purge(s, c, gone), c) && forall w: nat :: w in gone ==> !Leftover(Purge(s, c, gone), c, w)
  {
  }

  /** One page of the scrub: an identity leaf is unmapped. */
  method ScrubPage(k: Kernel, p: nat, c: nat, a: Areas, u: nat, ghost s0: State)
    returns (ok: bool, ghost steps: seq<Step>)
    requires k.Valid() && Steady(k.S(), k.ft.ram) && p in k.st.mms && c in k.st.mms && p != c && 0x200 <= u < LIMIT
    requires Scrubbed(a, u) && HalfForked(s0, k.S(), p, c, a, LIMIT)
    modifies k`view, k.st, k.ft
    ensures k.Valid() && SameMms(old(k.st.mms), k.st.mms)
    ensures Taken(old(k.S()), k.ft.ram, steps, k.S()) && HalfForked(s0, k.S(), p, c, a, LIMIT)
    ensures Fewer(old(k.S()), k.S(), c) && (ok ==> !Leftover(k.S(), c, u))
    ensures !ok ==> Starved(k, p)
  {
    hide TableStore.Valid, FrameTable.Valid, Views, Steady, Taken, HalfForked;
    hide Scrubbed, Purge, MmUnmap.Gone, MmUnmap.PageRange;
    ghost var s := k.S();
    TakenNone(s, k.ft.ram);
    steps := [];
    var yes := MmUnmap.Mapped(k, c, u);
    if !yes {
      return true, steps;
    }
    var o := ReadLeaf(k, c, u);
    if o.value.ppn != u {
      return true, steps;
    }
    OnePage(k.view[c], u);
    ghost var r := MmUnmap.PageRange(u * 4096, u * 4096 + 4096);
    ghost var gone := MmUnmap.Gone(k.view[c], r.0, r.1);
    var rc := MmUnmap.Unmap(k, c, u * 4096, u * 4096 + 4096);
    ok := rc == 0;
    if !ok && |k.st.heap| > 0 {
      ghost var w: nat :| !Has(k.S(), KERNEL, w);
      assert Lacking(k, p, w);
    }
    if ok {
      PurgeFewer(s, c, gone);
      ScrubKeeps(s0, s, k.ft.ram, p, c, a, u, gone);
      steps := [SPurge(c, gone)];
    }
  }

  /** The pages of one area. */
  method ScrubArea(k: Kernel, p: nat, c: nat, a: Areas, i: nat, ghost s0: State)
    returns (ok: bool, ghost steps: seq<Step>)
    requires k.Valid() && Steady(k.S(), k.ft.ram) && p in k.st.mms && c in k.st.mms && p != c && i < |a.owner|
    requires a.owner[i].used
    requires HalfForked(s0, k.S(), p, c, a, LIMIT)
    modifies k`view, k.st, k.ft
    ensures k.Valid() && SameMms(old(k.st.mms), k.st.mms)
    ensures Taken(old(k.S()), k.ft.ram, steps, k.S()) && HalfForked(s0, k.S(), p, c, a, LIMIT)
    ensures Fewer(old(k.S()), k.S(), c)
    ensures ok ==> forall u: nat {:trigger Leftover(k.S(), c, u)} ::
              u < LIMIT && ScrubHits(a.owner[i], u) ==> !Leftover(k.S(), c, u)
    ensures !ok ==> Starved(k, p)
  {
    hide TableStore.Valid, FrameTable.Valid, Views, Steady, Taken, HalfForked, Leftover;
    ghost var s1 := k.S();
    TakenNone(s1, k.ft.ram);
    steps := [];
    ok := true;
    var x := a.owner[i];
    if !(VmaProbe.LazyFile(x) || VmaProbe.LazyAnon(x)) || VmaProbe.End(x) <= x.addr || x.addr < 0x20_0000 {
      return;
    }
    ghost var mms0 := k.st.mms;
    var u := x.addr / 4096;
    while u * 4096 < VmaProbe.End(x) && u < LIMIT
      invariant x.addr / 4096 <= u && k.Valid() && ok && SameMms(mms0, k.st.mms)
      invariant Taken(s1, k.ft.ram, steps, k.S()) && HalfForked(s0, k.S(), p, c, a, LIMIT)
      invariant Fewer(s1, k.S(), c)
      invariant forall w: nat {:trigger Leftover(k.S(), c, w)} :: x.addr / 4096 <= w < u ==> !Leftover(k.S(), c, w)
      decreases LIMIT - u
    {
      assert Scrubbed(a, u) by { assert ScrubHits(a.owner[i], u); }
      ghost var s := k.S();
      ghost var more;
      TakenSteady(s1, k.ft.ram, steps, s);
      var mms1 := k.st.mms;
      ok, more := ScrubPage(k, p, c, a, u, s0);
      SameMmsTrans(mms0, mms1, k.st.mms);
      TakenThen(s1, k.ft.ram, steps, s, more, k.S());
      steps := steps + more;
      if !ok {
        return;
      }
      u := u + 1;
    }
  }

  lemma HitsUsed(x: VmaProbe.Vma)
    ensures !x.used ==> forall u: nat :: !ScrubHits(x, u)
  {
  }

  /** user_vma_fork_scrub_lazy_file. */
  method Scrub(k: Kernel, p: nat, c: nat, a: Areas, ghost s0: State) returns (ok: bool, ghost steps: seq<Step>)
    requires k.Valid() && Steady(k.S(), k.ft.ram) && p in k.st.mms && c in k.st.mms && p != c
    requires HalfForked(s0, k.S(), p, c, a, LIMIT)
    modifies k`view, k.st, k.ft
    ensures k.Valid() && SameMms(old(k.st.mms), k.st.mms)
    ensures Taken(old(k.S()), k.ft.ram, steps, k.S()) && HalfForked(s0, k.S(), p, c, a, LIMIT)
    ensures ok ==> Clean(k.S(), c, a)
    ensures !ok ==> Starved(k, p)
  {
    hide TableStore.Valid, FrameTable.Valid, Views, Steady, Taken, HalfForked, Leftover, ScrubHits;
    ghost var s1 := k.S();
    TakenNone(s1, k.ft.ram);
    steps := [];
    ok := true;
    ghost var mms0 := k.st.mms;
    var i := 0;
    while i < |a.owner|
      invariant i <= |a.owner| && k.Valid() && ok && SameMms(mms0, k.st.mms)
      invariant Taken(s1, k.ft.ram, steps, k.S()) && HalfForked(s0, k.S(), p, c, a, LIMIT)
      invariant forall j: nat, u: nat {:trigger ScrubHits(a.owner[j], u)} ::
        j < i && u < LIMIT && ScrubHits(a.owner[j], u) ==> !Leftover(k.S(), c, u)
    {
      HitsUsed(a.owner[i]);
      if a.owner[i].used {
        ghost var s := k.S();
        ghost var more;
        TakenSteady(s1, k.ft.ram, steps, s);
        var mms1 := k.st.mms;
        ok, more := ScrubArea(k, p, c, a, i, s0);
        SameMmsTrans(mms0, mms1, k.st.mms);
        TakenThen(s1, k.ft.ram, steps, s, more, k.S());
        steps := steps + more;
        if !ok {
          return;
        }
      }
      i := i + 1;
    }
  }

  // -------------------------------------------------------------- mm_dup_user

  lemma BornChild(s: State, ram: set<nat>, p: nat, c: nat, a: Areas)
    requires Steady(s, ram) && p in s.view && c !in s.view && SharedApart(s, p, a)
    ensures var t := Born(s, c);
            Taken(s, ram, [SBorn(c)], t) && Steady(t, ram) && c in t.view && p in t.view && t.view[p] == s.view[p] &&
                t.mem == s.mem &&
            SharedApart(t, p, a) && Undisturbed(s, t, c) && forall u :: u in t.view[c] ==> !t.view[c][u].owned
  {
    TakenOne(s, ram, SBorn(c));
    var t := Born(s, c);
    forall v: nat | Has(t, p, v) && VmaProbe.PageScan(a, v).shared
      ensures !Cached(t, t.view[p][v].ppn) && t.view[p][v].ppn < 0x100_0000_0000
    {
      assert Has(s, p, v);
      CachedAlike(s, t, s.view[p][v].ppn);
    }
  }

  lemma UndisturbedTrans(s: State, t: State, u: State, c: nat)
    requires Undisturbed(s, t, c) && Undisturbed(t, u, c)
    ensures Undisturbed(s, u, c)
  {
    forall n: nat, w: nat | n != c && Private(s, n, w)
      ensures Private(u, n, w) && SamePage(s, u, n, w) && Reads(u, n, w) == Reads(s, n, w)
    {
      assert Private(t, n, w);
    }
  }

  lemma DeathUndisturbed(s: State, ram: set<nat>, c: nat)
    requires Steady(s, ram) && UserMm(s, c)
    ensures Undisturbed(s, Death(s, c), c) && Taken(s, ram, [SDeath(c)], Death(s, c))
  {
    TakenOne(s, ram, SDeath(c));
  }

  /** The fail path of mm_dup_user: mm_release of the new address space. */
  method Abandon(k: Kernel, c: nat)
    requires k.Valid() && Steady(k.S(), k.ft.ram) && c in k.st.mms && k.st.mms[c].refcount == 1
    modifies k`view, k.st, k.ft
    ensures k.Valid() && Steady(k.S(), k.ft.ram) && c !in k.st.mms
    ensures Taken(old(k.S()), k.ft.ram, [SDeath(c)], k.S()) && Undisturbed(old(k.S()), k.S(), c)
  {
    hide TableStore.Valid, FrameTable.Valid, Steady, Taken, Undisturbed, Death;
    ghost var s := k.S();
    MmRelease.Release(k, c);
    DeathUndisturbed(s, k.ft.ram, c);
  }

  lemma ViewKeys(k: Kernel)
    requires k.Valid()
    ensures k.view.Keys == k.st.mms.Keys + {KERNEL}
  {
  }

  /** Pages above the stack are never carried. */
  lemma ToLimit(s0: State, s: State, p: nat, c: nat, a: Areas)
    requires HalfForked(s0, s, p, c, a, FORK_HI)
    ensures HalfForked(s0, s, p, c, a, LIMIT)
  {
    hide HalfForked, VmaProbe.SpanFree;
    assert forall u: nat :: u >= FORK_HI ==> !Carried(s0, p, u, a);
    ForkSkipTo(s0, s, p, c, a, FORK_HI, LIMIT);
  }

  /** The three passes over the new address space. */
  method FillChild(k: Kernel, p: nat, c: nat, a: Areas) returns (ok: bool, ghost steps: seq<Step>)
    requires k.Valid() && Steady(k.S(), k.ft.ram) && p in k.st.mms && c in k.st.mms && p != c && VmaProbe.AreasOk(a)
    requires c in k.view && SharedApart(k.S(), p, a) && BrkReady(k.S(), p, a) && forall u :: u in k.view[c] ==>
               !k.view[c][u].owned
    modifies k`view, k`shm, k.st, k.ft
    ensures k.Valid() && SameMms(old(k.st.mms), k.st.mms)
    ensures Taken(old(k.S()), k.ft.ram, steps, k.S()) && Undisturbed(old(k.S()), k.S(), c)
    ensures ok ==> HalfForked(old(k.S()), k.S(), p, c, a, LIMIT) && Clean(k.S(), c, a)
    ensures !ok ==> Starved(k, p)
  {
    hide TableStore.Valid, FrameTable.Valid, Views, Steady, Taken, HalfForked;
    hide SharedApart, Undisturbed, BrkReady, VmaProbe.AreasOk, Clean;
    ghost var s0 := k.S();
    ghost var mms0 := k.st.mms;
    ok, steps := ForkWalk(k, p, c, a);
    if !ok {
      return;
    }
    ghost var s1 := k.S();
    TakenSteady(s0, k.ft.ram, steps, s1);
    ToLimit(s0, s1, p, c, a);
    ghost var more;
    ghost var mms1 := k.st.mms;
    ok, more := BrkPass(k, p, c, a, s0);
    SameMmsTrans(mms0, mms1, k.st.mms);
    ghost var s2 := k.S();
    TakenThen(s0, k.ft.ram, steps, s1, more, s2);
    steps := steps + more;
    if !ok {
      return;
    }
    TakenSteady(s0, k.ft.ram, steps, s2);
    ghost var mms2 := k.st.mms;
    ok, more := Scrub(k, p, c, a, s0);
    SameMmsTrans(mms0, mms2, k.st.mms);
    TakenThen(s0, k.ft.ram, steps, s2, more, k.S());
    steps := steps + more;
    HalfUndisturbed(s0, k.S(), p, c, a, LIMIT);
  }

  /** After fork a carried page is inherited exactly when its span was not passed over. */
  lemma AllSettled(s0: State, s1: State, s: State, p: nat, c: nat, a: Areas)
    requires p in s0.view && p in s1.view && s1.view[p] == s0.view[p] && s1.mem == s0.mem
    requires HalfForked(s1, s, p, c, a, LIMIT)
    ensures forall u: nat :: Carried(s0, p, u, a) ==> (Inherited(s0, s, p, c, a, u) <==> !VmaProbe.SpanFree(a, u))
  {
    hide VmaProbe.SpanFree, VmaProbe.PageScan, Scrubbed;
    forall u: nat | Carried(s0, p, u, a)
      ensures Inherited(s0, s, p, c, a, u) <==> !VmaProbe.SpanFree(a, u)
    {
      assert Carried(s1, p, u, a);
      assert Settled(s1, s, p, c, a, u);
    }
  }

  /** mm_dup_user: on success the child reads what the parent read at exactly those owned user
      pages whose span some area or brk meets, and nobody else notices; on failure the child is
      gone and nobody noticed. cloned is whether the areas could be copied. */
  method DupUser(k: Kernel, p: nat, c: nat, a: Areas, cloned: bool) returns (ok: bool, ghost steps: seq<Step>)
    requires k.Valid() && Steady(k.S(), k.ft.ram) && p in k.st.mms && c !in k.st.mms && c != KERNEL
    requires VmaProbe.AreasOk(a) && SharedApart(k.S(), p, a) && BrkReady(k.S(), p, a)
    modifies k`view, k`shm, k.st, k.ft
    ensures k.Valid() && Taken(old(k.S()), k.ft.ram, steps, k.S()) && Steady(k.S(), k.ft.ram)
    ensures Undisturbed(old(k.S()), k.S(), c)
    ensures ok ==> c in k.st.mms && Clean(k.S(), c, a)
    ensures ok ==> forall u: nat :: Carried(old(k.S()), p, u, a) ==>
              (Inherited(old(k.S()), k.S(), p, c, a, u) <==> !VmaProbe.SpanFree(a, u))
    ensures !ok ==> c !in k.st.mms
  {
    hide TableStore.Valid, FrameTable.Valid, Steady, Taken, HalfForked, Carried, Inherited;
    hide SharedApart, Undisturbed, Death, Born, BrkReady, Clean;
    hide VmaProbe.AreasOk, VmaProbe.SpanFree;
    ghost var s0 := k.S();
    MmRelease.ViewOf(k, p);
    ViewKeys(k);
    ok := k.NewMm(c);
    if !ok {
      TakenNone(s0, k.ft.ram);
      UndisturbedSelf(s0, c);
      steps := [];
      return;
    }
    ghost var s1 := k.S();
    BornChild(s0, k.ft.ram, p, c, a);
    BornReady(s0, s1, p, a);
    if cloned {
      ok, steps := FillChild(k, p, c, a);
    } else {
      ok, steps := false, [];
      TakenNone(s1, k.ft.ram);
      UndisturbedSelf(s1, c);
    }
    ghost var s2 := k.S();
    TakenSteady(s1, k.ft.ram, steps, s2);
    TakenThen(s0, k.ft.ram, [SBorn(c)], s1, steps, s2);
    steps := [SBorn(c)] + steps;
    UndisturbedTrans(s0, s1, s2, c);
    if ok {
      AllSettled(s0, s1, s2, p, c, a);
    } else {
      Abandon(k, c);
      UndisturbedTrans(s0, s2, k.S(), c);
      TakenThen(s0, k.ft.ram, steps, s2, [SDeath(c)], k.S());
      steps := steps + [SDeath(c)];
    }
  }

  lemma BornReady(s: State, t: State, p: nat, a: Areas)
    requires BrkReady(s, p, a) && p in s.view && p in t.view && t.view[p] == s.view[p]
    ensures BrkReady(t, p, a)
  {
    forall u: nat | Has(t, p, u) && InPass(a, u) && t.view[p][u].owned
      ensures ReadyAt(t.view[p][u], u, a)
    {
      assert Has(s, p, u);
    }
  }

  // ----------------------------------------------- when nothing is passed over

  /** Where every carried page lies in an area or in brk, as privatization means to ensure, the
      child inherits all of them. */
  lemma CoveredInherited(s0: State, s: State, p: nat, c: nat, a: Areas)
    requires forall u: nat :: Carried(s0, p, u, a) ==> VmaProbe.Covered(a, u)
    requires forall u: nat :: Carried(s0, p, u, a) ==> (Inherited(s0, s, p, c, a, u) <==> !VmaProbe.SpanFree(a, u))
    ensures forall u: nat :: Carried(s0, p, u, a) ==> Inherited(s0, s, p, c, a, u)
  {
    hide Carried, Inherited, VmaProbe.SpanFree, VmaProbe.Covered;
    forall u: nat | Carried(s0, p, u, a)
      ensures Inherited(s0, s, p, c, a, u)
    {
      VmaProbe.CoveredNotFree(a, u);
    }
  }

  const LONE_PAGE: nat := 0x800
  const LONE_FRAME: nat := 0x1_2345

  /** One address space with one owned page at 8 MiB, and no areas on record. */
  function LoneState(): State {
    State(map[KERNEL := map[], 1 := map[LONE_PAGE := Leaf(LONE_FRAME, true, false, true)]], [], map[LONE_FRAME := 1],
          map[], {}, [])
  }

  function NoAreas(): Areas { VmaProbe.Areas(false, [], 0, [], VmaProbe.Brk(0, 0)) }

  lemma LoneCounted(f: nat)
    ensures Counted(LoneState(), multiset{}, f)
  {
    var s := LoneState();
    assert SlotRefs(s.cache, f) == {};
    if f == LONE_FRAME {
      assert LeafRefs(s.view, f) == {MapRef(1, LONE_PAGE)};
      assert Refs(s, f) == {MapRef(1, LONE_PAGE)};
    } else {
      assert LeafRefs(s.view, f) == {} && Refs(s, f) == {};
    }
  }

  /** The page is owned and carried, and its span is passed over: the child does not get it. */
  lemma PageLeftBehind(s: State, c: nat)
    requires Carried(LoneState(), 1, LONE_PAGE, NoAreas()) ==>
      (Inherited(LoneState(), s, 1, c, NoAreas(), LONE_PAGE) <==> !VmaProbe.SpanFree(NoAreas(), LONE_PAGE))
    ensures Steady(LoneState(), {LONE_FRAME}) && VmaProbe.AreasOk(NoAreas())
    ensures Carried(LoneState(), 1, LONE_PAGE, NoAreas()) && !Inherited(LoneState(), s, 1, c, NoAreas(), LONE_PAGE)
  {
    LoneSteady();
    hide Steady, LoneState;
    LoneCarried();
  }

  lemma LoneCarried()
    ensures Carried(LoneState(), 1, LONE_PAGE, NoAreas()) && VmaProbe.SpanFree(NoAreas(), LONE_PAGE)
  {
    assert LoneState().view[1][LONE_PAGE] == Leaf(LONE_FRAME, true, false, true);
  }

  lemma LoneSteady()
    ensures Steady(LoneState(), {LONE_FRAME})
  {
    var s := LoneState();
    forall f ensures Counted(s, multiset{}, f) { LoneCounted(f); }
    assert Conserved(s, multiset{});
    assert forall m: nat, v: nat :: Has(s, m, v) ==> m == 1 && v == LONE_PAGE;
    assert s.view[1][LONE_PAGE] == Leaf(LONE_FRAME, true, false, true);
    assert Isolated(s) && NoStrays(s, {LONE_FRAME}) && Pristine(s) && KernelBare(s) && Bounded(s);
  }
}
