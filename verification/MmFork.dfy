/**
The walk of fork over the parent's tables, 2 MiB span by 2 MiB span: which pages it hands to
the child, and which spans it passes over.
*/
module MmFork {
  import opened Basics
  import opened PageTables
  import opened MmTables
  import opened MmPaths
  import opened FrameSharing
  import opened MmLifecycle
  import opened AddressSpaces
  import opened CowFork
  import VmaProbe
  import MmRelease

  /** The pages that the walk visits: 0x200000 up to USER_STACK_TOP. */
  const FORK_LO: nat := 0x200
  const FORK_HI: nat := 0x6_0000

  /** user_vma_fork_scrub_lazy_file takes identity leaves of page u out of the child: u lies in a
      file-backed or lazily filled area of the owner's that starts at or above 2 MiB. */
  predicate ScrubHits(x: VmaProbe.Vma, u: nat) {
    (VmaProbe.LazyFile(x) || VmaProbe.LazyAnon(x)) && x.used && VmaProbe.End(x) > x.addr && x.addr >= 0x20_0000 &&
    x.addr / 4096 <= u && u * 4096 < VmaProbe.End(x)
  }

  ghost predicate Scrubbed(a: VmaProbe.Areas, u: nat) {
    exists i {:trigger a.owner[i]} :: 0 <= i < |a.owner| && ScrubHits(a.owner[i], u)
  }

  /** An owned page that fork must hand to the child: one whose frame is not the identity, or
      that no lazily backed area covers. */
  ghost predicate Carried(s: State, p: nat, u: nat, a: VmaProbe.Areas) {
    Has(s, p, u) && FORK_LO <= u < FORK_HI && s.view[p][u].owned &&
    (s.view[p][u].ppn == u ==> !VmaProbe.Lazy(VmaProbe.PageScan(a, u)) && !Scrubbed(a, u))
  }

  /** The child owns a page at u, reads there what the parent read and may write as it might. */
  ghost predicate Inherited(s0: State, s: State, p: nat, c: nat, a: VmaProbe.Areas, u: nat) {
    Has(s0, p, u) && Has(s, c, u) && s.view[c][u].owned && Reads(s, c, u) == Reads(s0, p, u) &&
    GrantedAs(s0.view[p][u], s.view[c][u], VmaProbe.PageScan(a, u).shared)
  }

  /** Why page v could not be handed on: no frame for it, nothing to route it by, or a frame of
      the parent's at or above 4 GiB. */
  ghost predicate Lacking(k: Kernel, p: nat, v: nat)
    reads k, k.st, k.ft
  {
    NoFrame(k, v) || !Has(k.S(), KERNEL, v) || (Has(k.S(), p, v) && k.view[p][v].ppn >= LIMIT)
  }

  /** Fork gives up for want of a table page, or for what some page lacks. */
  ghost predicate Starved(k: Kernel, p: nat)
    reads k, k.st, k.ft
  {
    |k.st.heap| == 0 || exists v: nat :: Lacking(k, p, v)
  }

  /** Everybody but the child still reads the same. */
  ghost predicate Undisturbed(s0: State, s: State, c: nat) {
    forall n: nat, w: nat {:trigger Private(s0, n, w)} :: n != c && Private(s0, n, w) ==>
      Private(s, n, w) && SamePage(s0, s, n, w) && Reads(s, n, w) == Reads(s0, n, w)
  }

  /** An identity page that the child owns is an identity page of the parent's. */
  ghost predicate ChildApart(s0: State, s: State, p: nat, c: nat) {
    forall u: nat {:trigger LeafIn(s, c, u)} :: ApartAt(s0, s, p, c, u)
  }

  ghost predicate ApartAt(s0: State, s: State, p: nat, c: nat, u: nat) {
    Unowned(LeafIn(s, c, u)) || s.view[c][u].ppn != u || (Has(s0, p, u) && s0.view[p][u].ppn == u)
  }

  /** What becomes of a carried page: it is inherited, or passed over with its whole span. */
  ghost predicate Settled(s0: State, s: State, p: nat, c: nat, a: VmaProbe.Areas, u: nat) {
    if VmaProbe.SpanFree(a, u) then Unowned(LeafIn(s, c, u)) else Inherited(s0, s, p, c, a, u)
  }

  /** What holds before the walk reaches page v. */
  ghost predicate HalfForked(s0: State, s: State, p: nat, c: nat, a: VmaProbe.Areas, v: nat) {
    Undisturbed(s0, s, c) && s.cache == s0.cache && c in s.view && p in s.view && ChildApart(s0, s, p, c) &&
    (forall w: nat {:trigger Has(s, p, w)} :: Has(s, p, w) <==> Has(s0, p, w)) &&
    (forall w: nat {:trigger Has(s0, p, w)} :: Has(s0, p, w) ==>
       SamePage(s0, s, p, w) && (w >= v ==> s.view[p][w] == s0.view[p][w])) &&
    (forall u: nat {:trigger LeafIn(s, c, u)} :: u >= v ==> Unowned(LeafIn(s, c, u))) &&
    (forall u: nat {:trigger Carried(s0, p, u, a)} :: u < v && Carried(s0, p, u, a) ==> Settled(s0, s, p, c, a, u))
  }

  lemma ForkedReads(s: State, ram: set<nat>, steps: seq<Step>, s': State, p: nat, c: nat, v: nat, shared: bool)
    requires Has(s, p, v) && LeafForked(s, ram, steps, s', p, c, v, shared)
    ensures Has(s', c, v) && Reads(s', c, v) == Reads(s, p, v) && (s.view[p][v].owned ==> s'.view[c][v].owned)
    ensures s'.view[c][v].ppn == v ==> s.view[p][v].ppn == v
    ensures p != c ==> GrantedAs(s.view[p][v], s'.view[c][v], shared)
    ensures forall j :: 0 <= j < |steps| ==> Quiet(steps[j], c, v)
  {
    if p != c { ForkedGrants(s, ram, steps, s', p, c, v, shared); }
    hide GrantedAs;
    if !shared && Copies(s.view[p][v], v) {
      RenewedPage(s, ram, steps, s', c, v, Reads(s, p, v));
    } else {
      var step := steps[0];
      StepSteady(s, ram, step);
      var t := After(s, ram, step);
      assert steps[1..] == [] && Runs(t, ram, []) && EndOf(t, ram, []) == t;
      if shared {
        ForkShmSteady(s, ram, p, c, v);
      } else {
        ForkShareSteady(s, ram, p, c, v);
        ForkShareOrder(s, p, c, v);
      }
    }
  }

  /** Forking page v leaves every other page of the child, and everybody else, alone. */
  lemma ForkAway(s0: State, ram: set<nat>, s: State, steps: seq<Step>, s': State, p: nat, c: nat, a: VmaProbe.Areas,
                 v: nat,
                 shared: bool, u: nat)
    requires p != c && Has(s, p, v) && LeafForked(s, ram, steps, s', p, c, v, shared) && u != v
    requires Settled(s0, s, p, c, a, u)
    ensures Settled(s0, s', p, c, a, u)
  {
    ForkedReads(s, ram, steps, s', p, c, v, shared);
    QuietRunElsewhere(s, ram, steps, s', c, v);
    assert Has(s', c, u) <==> Has(s, c, u);
    if Inherited(s0, s, p, c, a, u) {
      QuietRun(s, ram, steps, s', c, v, c, u);
    }
  }

  /** One page forked, before or after the walk has passed it. */
  lemma ForkOneMore(s0: State, ram: set<nat>, s: State, steps: seq<Step>, s': State, p: nat, c: nat, a: VmaProbe.Areas,
                    v: nat, from: nat, to: nat, shared: bool)
    requires p != c && Has(s, p, v) && LeafForked(s, ram, steps, s', p, c, v, shared) && Has(s0, p, v)
    requires HalfForked(s0, s, p, c, a, from) && (from == v || from == to) && from <= to <= from + 1 && v < to
    requires (s.view[p][v].owned ==> Private(s0, p, v)) && (Carried(s0, p, v, a) ==> !VmaProbe.SpanFree(a, v))
    requires (shared ==> VmaProbe.PageScan(a, v).shared) && (Carried(s0, p, v, a) ==> from == v)
    ensures HalfForked(s0, s', p, c, a, to)
  {
    hide Carried, Settled, VmaProbe.SpanFree, VmaProbe.PageScan, GrantedAs;
    ForkedReads(s, ram, steps, s', p, c, v, shared);
    QuietRunElsewhere(s, ram, steps, s', c, v);
    forall n: nat, w: nat | n != c && Private(s0, n, w)
      ensures Private(s', n, w) && SamePage(s0, s', n, w) && Reads(s', n, w) == Reads(s0, n, w)
    {
      QuietRun(s, ram, steps, s', c, v, n, w);
    }
    forall u: nat | u != v
      ensures LeafAlike(s, s', c, u)
    {
      assert Has(s', c, u) <==> Has(s, c, u);
    }
    forall w: nat | Has(s0, p, w)
      ensures SamePage(s0, s', p, w) && (w >= to ==> s'.view[p][w] == s0.view[p][w])
    {
      assert SamePage(s0, s, p, w) && (w >= from ==> s.view[p][w] == s0.view[p][w]);
      if w >= to { ForkedParent(s, ram, steps, s', p, c, v, shared, w); }
    }
    assert ChildApart(s0, s', p, c) by {
      assert SamePage(s0, s, p, v);
      forall u: nat
        ensures ApartAt(s0, s', p, c, u)
      {
        if u != v {
          assert LeafAlike(s, s', c, u);
          assert LeafIn(s, c, u) == LeafIn(s, c, u);
        }
      }
    }
    forall u: nat | u < to && Carried(s0, p, u, a)
      ensures Settled(s0, s', p, c, a, u)
    {
      if u != v {
        ForkAway(s0, ram, s, steps, s', p, c, a, v, shared, u);
      } else {
        assert s.view[p][v] == s0.view[p][v];
        CarriedForked(s0, s, s', p, c, a, v, shared);
      }
    }
    forall u: nat | u >= to
      ensures Unowned(LeafIn(s', c, u))
    {
      assert LeafAlike(s, s', c, u) && Unowned(LeafIn(s, c, u));
    }
  }

  /** The same frame or none, owned or not as before. */
  ghost predicate LeafAlike(s: State, s': State, c: nat, u: nat) {
    (Has(s', c, u) <==> Has(s, c, u)) && (Has(s, c, u) ==> SamePage(s, s', c, u))
  }

  lemma CarriedForked(s0: State, s: State, s': State, p: nat, c: nat, a: VmaProbe.Areas, v: nat, shared: bool)
    requires Carried(s0, p, v, a) && !VmaProbe.SpanFree(a, v) && Has(s, p, v) && s.view[p][v] == s0.view[p][v]
    requires Undisturbed(s0, s, c) && p != c && Has(s, p, v) && Has(s', c, v)
    requires Reads(s', c, v) == Reads(s, p, v) && (s.view[p][v].owned ==> s'.view[c][v].owned)
    requires GrantedAs(s.view[p][v], s'.view[c][v], shared) && (shared ==> VmaProbe.PageScan(a, v).shared)
    ensures Settled(s0, s', p, c, a, v)
  {
    assert Private(s0, p, v);
  }

  /** A page that the walk passes over. */
  lemma ForkSkip(s0: State, s: State, p: nat, c: nat, a: VmaProbe.Areas, v: nat)
    requires HalfForked(s0, s, p, c, a, v) && (Carried(s0, p, v, a) ==> VmaProbe.SpanFree(a, v))
    ensures HalfForked(s0, s, p, c, a, v + 1)
  {
    hide Carried, VmaProbe.SpanFree, ChildApart, Undisturbed;
    assert Unowned(LeafIn(s, c, v));
  }

  /** A span that the walk passes over. */
  lemma {:induction false} ForkSkipTo(s0: State, s: State, p: nat, c: nat, a: VmaProbe.Areas, v: nat, to: nat)
    requires HalfForked(s0, s, p, c, a, v) && v <= to
    requires forall u: nat {:trigger Carried(s0, p, u, a)} :: v <= u < to && Carried(s0, p, u, a) ==>
               VmaProbe.SpanFree(a, u)
    ensures HalfForked(s0, s, p, c, a, to)
    decreases if v <= to then to - v else 0
  {
    hide Carried, VmaProbe.SpanFree, HalfForked;
    if v < to {
      ForkSkip(s0, s, p, c, a, v);
      ForkSkipTo(s0, s, p, c, a, v + 1, to);
    }
  }

  lemma CachedAlike(s: State, t: State, f: nat)
    requires s.cache == t.cache
    ensures Cached(s, f) <==> Cached(t, f)
  {
  }

  /** Pages of MAP_SHARED areas show no frame of a cached image; frame numbers have 40 bits. */
  ghost predicate SharedApart(s: State, p: nat, a: VmaProbe.Areas) {
    forall v: nat {:trigger Has(s, p, v)} ::
      Has(s, p, v) && VmaProbe.PageScan(a, v).shared ==>
            !Cached(s, s.view[p][v].ppn) && s.view[p][v].ppn < 0x100_0000_0000
  }

  lemma ForkStart(s: State, p: nat, c: nat, a: VmaProbe.Areas)
    requires p in s.view && c in s.view && forall u :: u in s.view[c] ==> !s.view[c][u].owned
    ensures HalfForked(s, s, p, c, a, FORK_LO)
  {
    assert forall u: nat :: Unowned(LeafIn(s, c, u));
    UndisturbedSelf(s, c);
    hide Undisturbed;
    forall u: nat
      ensures ApartAt(s, s, p, c, u)
    {
      assert Unowned(LeafIn(s, c, u));
    }
    assert forall u: nat :: u < FORK_LO ==> !Carried(s, p, u, a);
  }

  lemma UndisturbedSelf(s: State, c: nat)
    ensures Undisturbed(s, s, c)
  {
  }

  lemma ForkFailed(s0: State, ram: set<nat>, s: State, steps: seq<Step>, s': State, p: nat, c: nat, a: VmaProbe.Areas,
                   v: nat)
    requires HalfForked(s0, s, p, c, a, v) && Taken(s, ram, steps, s') && OnlyScribbles(steps) && p != c
    ensures Undisturbed(s0, s', c) && c in s'.view && p in s'.view && s'.cache == s.cache
  {
    ScribbledViews(s, ram, steps, s');
    forall n: nat, w: nat | n != c && Private(s0, n, w)
      ensures Private(s', n, w) && SamePage(s0, s', n, w) && Reads(s', n, w) == Reads(s0, n, w)
    {
      QuietRun(s, ram, steps, s', c, v, n, w);
    }
  }

  lemma {:induction false} ScribbledViews(s: State, ram: set<nat>, steps: seq<Step>, s': State)
    requires Taken(s, ram, steps, s') && OnlyScribbles(steps)
    ensures s'.view == s.view && s'.cache == s.cache
    decreases |steps|
  {
    if steps != [] {
      StepSteady(s, ram, steps[0]);
      ScribbledViews(After(s, ram, steps[0]), ram, steps[1..], s');
    }
  }

  /** What HalfForked says about the page that is next. */
  lemma NextPage(s0: State, s: State, p: nat, c: nat, a: VmaProbe.Areas, v: nat)
    requires HalfForked(s0, s, p, c, a, v)
    ensures Unowned(LeafIn(s, c, v)) && (Has(s, p, v) <==> Has(s0, p, v)) && c in s.view && p in s.view
    ensures s.cache == s0.cache
    ensures Has(s, p, v) ==> s.view[p][v].ppn == s0.view[p][v].ppn && s.view[p][v].owned == s0.view[p][v].owned
  {
    assert Has(s0, p, v) ==> SamePage(s0, s, p, v);
  }

  // --------------------------------------------------------------- the spans

  /** What maps the 2 MiB span of page v: nothing, a 1 GiB leaf, a 2 MiB leaf (with the frame of
      its first page) or a table of 4 KiB leaves. */
  datatype Form = Gone | Giant | Chunk(base: nat, us: bool) | Last

  function FormAt(ts: Tables, root: Id, v: nat): Form {
    if root !in ts || |ts[root]| != 512 || !ts[root][Idx(4, v)].present then Gone
    else
      var l3 := ts[root][Idx(4, v)].ppn;
      if l3 !in ts || |ts[l3]| != 512 || !ts[l3][Idx(3, v)].present then Gone
      else if ts[l3][Idx(3, v)].ps then Giant
      else
        var l2 := ts[l3][Idx(3, v)].ppn;
        if l2 !in ts || |ts[l2]| != 512 || !ts[l2][Idx(2, v)].present then Gone
        else if ts[l2][Idx(2, v)].ps then Chunk(HugePpn(2, ts[l2][Idx(2, v)], VmaProbe.SpanBase(v)),
                                                ts[l2][Idx(2, v)].us)
        else Last
  }

  /** Only a table of 4 KiB leaves holds owned pages. */
  lemma OwnedInLast(ts: Tables, info: Infos, m: nat, root: Id, v: nat)
    requires Wf(ts, info) && Met(ts, info, m, root, v, 0) && !FormAt(ts, root, v).Last?
    ensures LeafAt(ts, root, 4, v).Some? ==> !LeafAt(ts, root, 4, v).value.owned
  {
    assert WfTable(ts, info, root);
    assert WfEntry(info, root, Idx(4, v), ts[root][Idx(4, v)]);
    var e4 := ts[root][Idx(4, v)];
    if e4.present {
      MetNext(ts, info, m, root, 4, v);
      assert LeafAt(ts, root, 4, v) == LeafAt(ts, e4.ppn, 3, v);
      OwnedUnderThree(ts, info, m, e4.ppn, v);
    }
  }

  lemma OwnedUnderThree(ts: Tables, info: Infos, m: nat, l3: Id, v: nat)
    requires Wf(ts, info) && Met(ts, info, m, l3, v, 1)
    requires var e := ts[l3][Idx(3, v)];
             e.present ==> e.ps || (e.ppn in ts && |ts[e.ppn]| == 512 ==>
                                    !ts[e.ppn][Idx(2, v)].present || ts[e.ppn][Idx(2, v)].ps)
    ensures LeafAt(ts, l3, 3, v).Some? ==> !LeafAt(ts, l3, 3, v).value.owned
  {
    assert WfTable(ts, info, l3);
    var e := ts[l3][Idx(3, v)];
    assert WfEntry(info, l3, Idx(3, v), e);
    if e.present && !e.ps {
      MetNext(ts, info, m, l3, 3, v);
      assert WfTable(ts, info, e.ppn);
      assert WfEntry(info, e.ppn, Idx(2, v), ts[e.ppn][Idx(2, v)]);
      assert LeafAt(ts, l3, 3, v) == LeafAt(ts, e.ppn, 2, v);
    }
  }

  lemma SpanAlike(v: nat, w: nat)
    requires v / 512 == w / 512
    ensures Idx(4, v) == Idx(4, w) && Idx(3, v) == Idx(3, w) && Idx(2, v) == Idx(2, w)
  {
    DivTwice(v, 512);
    DivTwice(w, 512);
  }

  lemma DivTwice(v: nat, k: nat)
    requires k == 512
    ensures v / 0x4_0000 == v / k / 512 && v / 0x800_0000 == v / k / 512 / 512
  {
  }

  /** The form of the span that begins at page v. */
  method SpanForm(k: Kernel, m: nat, v: nat) returns (f: Form)
    requires k.Valid() && m in k.st.mms && v % 512 == 0 && v + 512 <= LIMIT
    ensures f == FormAt(k.st.ts, k.st.mms[m].root, v) && m in k.view
    ensures !f.Last? ==> forall w :: v <= w < v + 512 && w in k.view[m] ==> !k.view[m][w].owned
  {
    f := FormAt(k.st.ts, k.st.mms[m].root, v);
    LeafInView(k.st, m, v);
    assert MmOk(k.st.ts, k.st.info, m, k.st.mms[m]);
    if !f.Last? {
      forall w | v <= w < v + 512 && w in k.view[m]
        ensures !k.view[m][w].owned
      {
        SpanAlike(v, w);
        LeafInView(k.st, m, w);
        OwnedInLast(k.st.ts, k.st.info, m, k.st.mms[m].root, w);
      }
    }
  }
  // ---------------------------------------------------------------- the walk

  /** The page is handed to mm_fork_copy_user_leaf. Raw identity pages of private areas and of
      brk are not forked here. */
  predicate Wanted(f: VmaProbe.Flags, e: Entry, v: nat, huge: bool) {
    e.us && (huge || e.ppn < LIMIT) && !(VmaProbe.Lazy(f) && (!e.owned || e.ppn == v)) &&
        !(e.ppn == v && !e.owned && !f.shared)
  }

  lemma NotWanted(s: State, p: nat, v: nat, a: VmaProbe.Areas, e: Entry, huge: bool)
    requires Has(s, p, v) && s.view[p][v].ppn == e.ppn && s.view[p][v].owned == e.owned
    requires (e.owned ==> e.us && e.ppn < LIMIT)
    requires !Wanted(VmaProbe.PageScan(a, v), e, v, huge)
    ensures !Carried(s, p, v, a)
  {
    hide VmaProbe.PageScan, Scrubbed;
  }

  /** One page of the walk. */
  method ForkOne(k: Kernel, p: nat, c: nat, a: VmaProbe.Areas, v: nat, huge: bool, ghost s0: State)
    returns (ok: bool, ghost steps: seq<Step>)
    requires k.Valid() && Steady(k.S(), k.ft.ram) && p in k.st.mms && c in k.st.mms && p != c && FORK_LO <= v < FORK_HI
    requires HalfForked(s0, k.S(), p, c, a, v) && SharedApart(s0, p, a) && VmaProbe.AreasOk(a)
    requires Carried(s0, p, v, a) ==> !VmaProbe.SpanFree(a, v)
    modifies k`view, k`shm, k.st, k.ft
    ensures k.Valid() && SameMms(old(k.st.mms), k.st.mms) && k.st.mms.Keys == old(k.st.mms.Keys)
    ensures Taken(old(k.S()), k.ft.ram, steps, k.S()) && k.cache == old(k.cache)
    ensures ok ==> HalfForked(s0, k.S(), p, c, a, v + 1)
    ensures !ok ==> Undisturbed(s0, k.S(), c) && c in k.view && p in k.view && Starved(k, p)
  {
    hide TableStore.Valid, FrameTable.Valid, Views, Steady, Taken, HalfForked;
    hide Cached, LeafForked, Undisturbed, OnlyScribbles;
    hide VmaProbe.PageScan, VmaProbe.SpanFree, VmaProbe.AreasOk, Carried;
    ghost var s := k.S();
    NextPage(s0, s, p, c, a, v);
    HalfUndisturbed(s0, s, p, c, a, v);
    TakenNone(s, k.ft.ram);
    steps := [];
    var o := ReadLeaf(k, p, v);
    if o.None? {
      NoPage(s0, p, v, a);
      ForkSkip(s0, s, p, c, a, v);
      return true, steps;
    }
    var pte := o.value;
    var f := VmaProbe.PageFlags(a, v);
    if !Wanted(f, pte, v, huge) {
      NotWanted(s0, p, v, a, pte, huge);
      ForkSkip(s0, s, p, c, a, v);
      return true, steps;
    }
    if pte.ppn >= LIMIT && !f.shared {
      assert Lacking(k, p, v);
      return false, steps;
    }
    MmRelease.ViewOf(k, c);
    assert Has(s0, p, v);
    CachedAlike(s0, s, pte.ppn);
    ok, steps := ForkLeaf(k, p, c, v, pte, f.shared);
    if ok {
      ForkOneMore(s0, k.ft.ram, s, steps, k.S(), p, c, a, v, v, v + 1, f.shared);
    } else {
      ForkFailed(s0, k.ft.ram, s, steps, k.S(), p, c, a, v);
      assert |k.st.heap| == 0 || Lacking(k, p, v);
    }
  }

  lemma NoPage(s: State, p: nat, v: nat, a: VmaProbe.Areas)
    requires !Has(s, p, v)
    ensures !Carried(s, p, v, a)
  {
  }

  lemma HalfUndisturbed(s0: State, s: State, p: nat, c: nat, a: VmaProbe.Areas, v: nat)
    requires HalfForked(s0, s, p, c, a, v)
    ensures Undisturbed(s0, s, c) && c in s.view && p in s.view
  {
  }

  /** The pages of one span, one by one. */
  method ForkPages(k: Kernel, p: nat, c: nat, a: VmaProbe.Areas, b: nat, huge: bool, ghost s0: State)
    returns (ok: bool, ghost steps: seq<Step>)
    requires k.Valid() && Steady(k.S(), k.ft.ram) && p in k.st.mms && c in k.st.mms && p != c && FORK_LO <= b
    requires b + 512 <= FORK_HI
    requires HalfForked(s0, k.S(), p, c, a, b) && SharedApart(s0, p, a) && VmaProbe.AreasOk(a)
    requires forall u: nat {:trigger Carried(s0, p, u, a)} :: b <= u < b + 512 && Carried(s0, p, u, a) ==>
               !VmaProbe.SpanFree(a, u)
    modifies k`view, k`shm, k.st, k.ft
    ensures k.Valid() && SameMms(old(k.st.mms), k.st.mms) && k.st.mms.Keys == old(k.st.mms.Keys)
    ensures Taken(old(k.S()), k.ft.ram, steps, k.S()) && k.cache == old(k.cache)
    ensures ok ==> HalfForked(s0, k.S(), p, c, a, b + 512)
    ensures !ok ==> Undisturbed(s0, k.S(), c) && c in k.view && p in k.view && Starved(k, p)
  {
    hide TableStore.Valid, FrameTable.Valid, Views, Steady, Taken, HalfForked, Carried, SharedApart, Undisturbed;
    hide VmaProbe.AreasOk, VmaProbe.SpanFree;
    ghost var s1 := k.S();
    TakenNone(s1, k.ft.ram);
    steps := [];
    ghost var mms0 := k.st.mms;
    var v := b;
    ok := true;
    while v < b + 512
      invariant b <= v <= b + 512 && k.Valid() && ok
      invariant SameMms(mms0, k.st.mms) && k.st.mms.Keys == mms0.Keys
      invariant Taken(s1, k.ft.ram, steps, k.S()) && k.cache == s1.cache
      invariant HalfForked(s0, k.S(), p, c, a, v)
    {
      ghost var s := k.S();
      ghost var more;
      TakenSteady(s1, k.ft.ram, steps, s);
      var mms1 := k.st.mms;
      ok, more := ForkOne(k, p, c, a, v, huge, s0);
      SameMmsTrans(mms0, mms1, k.st.mms);
      TakenThen(s1, k.ft.ram, steps, s, more, k.S());
      steps := steps + more;
      if !ok {
        return;
      }
      v := v + 1;
    }
  }

  lemma SpanOf(a: VmaProbe.Areas, b: nat, u: nat)
    requires b % 512 == 0 && b <= u < b + 512
    ensures VmaProbe.SpanFree(a, u) <==> VmaProbe.SpanFree(a, b)
  {
    assert VmaProbe.SpanBase(u) == b && VmaProbe.SpanBase(b) == b;
  }

  /** An owned page of the parent's is in the state the fork began with. */
  lemma CarriedOwned(s0: State, s: State, p: nat, c: nat, a: VmaProbe.Areas, v: nat, u: nat)
    requires HalfForked(s0, s, p, c, a, v) && Carried(s0, p, u, a)
    ensures Has(s, p, u) && s.view[p][u].owned
  {
    assert SamePage(s0, s, p, u);
  }

  /** One span: a 1 GiB leaf is passed over; a 2 MiB identity leaf and a table of 4 KiB leaves are
      passed over when no area and no brk meets the span; else every page is visited. */
  method ForkSpan(k: Kernel, p: nat, c: nat, a: VmaProbe.Areas, b: nat, ghost s0: State)
    returns (ok: bool, ghost steps: seq<Step>)
    requires k.Valid() && Steady(k.S(), k.ft.ram) && p in k.st.mms && c in k.st.mms && p != c
    requires FORK_LO <= b && b + 512 <= FORK_HI && b % 512 == 0
    requires HalfForked(s0, k.S(), p, c, a, b) && SharedApart(s0, p, a) && VmaProbe.AreasOk(a)
    modifies k`view, k`shm, k.st, k.ft
    ensures k.Valid() && SameMms(old(k.st.mms), k.st.mms) && k.st.mms.Keys == old(k.st.mms.Keys)
    ensures Taken(old(k.S()), k.ft.ram, steps, k.S()) && k.cache == old(k.cache)
    ensures ok ==> HalfForked(s0, k.S(), p, c, a, b + 512)
    ensures !ok ==> Undisturbed(s0, k.S(), c) && c in k.view && p in k.view && Starved(k, p)
  {
    hide TableStore.Valid, FrameTable.Valid, Views, Steady, Taken, HalfForked, Carried, SharedApart, Undisturbed;
    hide VmaProbe.AreasOk, VmaProbe.SpanFree, FormAt;
    ghost var s := k.S();
    var form := SpanForm(k, p, b);
    var free := form.Last? || (form.Chunk? && form.base == b);
    if free {
      free := VmaProbe.ProbeSpan(a, b);
    }
    forall u: nat | b <= u < b + 512 && Carried(s0, p, u, a)
      ensures form.Last? && (VmaProbe.SpanFree(a, u) <==> free)
    {
      CarriedOwned(s0, s, p, c, a, b, u);
      SpanOf(a, b, u);
    }
    if form.Gone? || form.Giant? || (form.Chunk? && !form.us) || free {
      TakenNone(s, k.ft.ram);
      ForkSkipTo(s0, s, p, c, a, b, b + 512);
      return true, [];
    }
    ok, steps := ForkPages(k, p, c, a, b, form.Chunk?, s0);
  }

  /** mm_cow_mark_all_user_writable_walk with protect_parent. */
  method ForkWalk(k: Kernel, p: nat, c: nat, a: VmaProbe.Areas) returns (ok: bool, ghost steps: seq<Step>)
    requires k.Valid() && Steady(k.S(), k.ft.ram) && p in k.st.mms && c in k.st.mms && p != c && VmaProbe.AreasOk(a)
    requires c in k.view && SharedApart(k.S(), p, a) && forall u :: u in k.view[c] ==> !k.view[c][u].owned
    modifies k`view, k`shm, k.st, k.ft
    ensures k.Valid() && SameMms(old(k.st.mms), k.st.mms) && k.st.mms.Keys == old(k.st.mms.Keys)
    ensures Taken(old(k.S()), k.ft.ram, steps, k.S()) && Undisturbed(old(k.S()), k.S(), c) && k.cache == old(k.cache)
    ensures c in k.view && p in k.view
    ensures ok ==> HalfForked(old(k.S()), k.S(), p, c, a, FORK_HI)
    ensures !ok ==> Starved(k, p)
  {
    hide TableStore.Valid, FrameTable.Valid, Views, Steady, Taken, HalfForked, Carried, SharedApart, Undisturbed;
    hide VmaProbe.AreasOk, VmaProbe.SpanFree;
    ghost var s0 := k.S();
    TakenNone(s0, k.ft.ram);
    steps := [];
    MmRelease.ViewOf(k, p);
    ForkStart(s0, p, c, a);
    ghost var mms0 := k.st.mms;
    var b := FORK_LO;
    ok := true;
    while b < FORK_HI
      invariant FORK_LO <= b <= FORK_HI && b % 512 == 0 && k.Valid() && ok
      invariant SameMms(mms0, k.st.mms) && k.st.mms.Keys == mms0.Keys
      invariant Taken(s0, k.ft.ram, steps, k.S()) && k.cache == s0.cache
      invariant HalfForked(s0, k.S(), p, c, a, b)
    {
      ghost var s := k.S();
      ghost var more;
      TakenSteady(s0, k.ft.ram, steps, s);
      var mms1 := k.st.mms;
      ok, more := ForkSpan(k, p, c, a, b, s0);
      SameMmsTrans(mms0, mms1, k.st.mms);
      TakenThen(s0, k.ft.ram, steps, s, more, k.S());
      steps := steps + more;
      if !ok {
        return;
      }
      b := b + 512;
    }
    HalfUndisturbed(s0, k.S(), p, c, a, b);
  }
}
