/**
mm_unmap_user_range: two passes over the page range. The first makes every table path
private and splits what must be split; it may fail but clears nothing. The second
clears the leaves and cannot fail.
*/
module MmUnmap {
  import opened Basics
  import opened PageTables
  import opened MmTables
  import opened MmPaths
  import opened FrameSharing
  import opened MmLifecycle
  import opened AddressSpaces
  import opened CowFork
  import MmRelease

  // -------------------------------------------------------------- leaf lookup

  /** mm_va_leaf_pa succeeds: every table and a 4 KiB frame must lie below 4 GiB. */
  predicate Visible(ts: Tables, id: Id, lvl: nat, v: nat)
    requires 1 <= lvl <= 4
    decreases lvl, v
  {
    id in ts && |ts[id]| == 512 &&
    var e := ts[id][Idx(lvl, v)];
    e.present &&
    if lvl == 4 then !e.ps && e.ppn < LIMIT && Visible(ts, e.ppn, 3, v)
    else if lvl == 3 then e.ps || (e.ppn < LIMIT && Visible(ts, e.ppn, 2, v))
    else if lvl == 2 then e.ppn < LIMIT && (e.ps || Visible(ts, e.ppn, 1, v))
    else e.ppn < LIMIT
  }

  lemma WindowAt(v: nat, lvl: nat)
    requires v < LIMIT && 1 <= lvl <= 4
    ensures InWindow(Path(v, 4 - lvl), Idx(lvl, v))
  {
    assert Path(v, 1)[0] == Idx(4, v);
    assert Path(v, 2)[0] == Idx(4, v) && Path(v, 2)[1] == Idx(3, v);
    assert Path(v, 3)[0] == Idx(4, v) && Path(v, 3)[1] == Idx(3, v);
  }

  lemma HugeLow(lvl: nat, e: Entry, v: nat)
    requires (lvl == 2 || lvl == 3) && e.ppn - e.ppn % Span(lvl) + Span(lvl) <= LIMIT
    ensures HugePpn(lvl, e, v) < LIMIT && e.ppn < LIMIT
  {
  }

  /** What the lookup sees is exactly the leaves whose frame lies below 4 GiB. */
  lemma {:induction false} VisibleIff(ts: Tables, info: Infos, m: nat, id: Id, lvl: nat, v: nat)
    requires Wf(ts, info) && 1 <= lvl <= 4 && v < LIMIT && Met(ts, info, m, id, v, 4 - lvl)
    ensures Visible(ts, id, lvl, v) <==> LeafAt(ts, id, lvl, v).Some? && LeafAt(ts, id, lvl, v).value.ppn < LIMIT
    decreases lvl
  {
    assert WfTable(ts, info, id);
    var e := ts[id][Idx(lvl, v)];
    assert WfEntry(info, id, Idx(lvl, v), e);
    WindowAt(v, lvl);
    if IsHuge(lvl, e) {
      HugeLow(lvl, e, v);
    } else if IsTable(lvl, e) {
      MetNext(ts, info, m, id, lvl, v);
      assert WfTable(ts, info, e.ppn);
      hide Wf;
      VisibleIff(ts, info, m, e.ppn, lvl - 1, v);
      assert LeafAt(ts, id, lvl, v) == LeafAt(ts, e.ppn, lvl - 1, v);
    }
  }

  /** mm_va_leaf_pa as a test. */
  method Mapped(k: Kernel, m: nat, v: nat) returns (yes: bool)
    requires k.Valid() && m in k.st.mms && v < LIMIT
    ensures m in k.view && (yes <==> v in k.view[m] && k.view[m][v].ppn < LIMIT)
  {
    yes := Visible(k.st.ts, k.st.mms[m].root, 4, v);
    LeafInView(k.st, m, v);
    assert MmOk(k.st.ts, k.st.info, m, k.st.mms[m]);
    VisibleIff(k.st.ts, k.st.info, m, k.st.mms[m].root, 4, v);
  }

  // -------------------------------------------------------------- preparation

  /** Covered by the range [b, e). */
  predicate ChunkInside(b: nat, e: nat, u: nat) { b <= u - u % 512 && u - u % 512 + 512 <= e }

  /** A 2 MiB leaf over u must lie inside the range. */
  ghost predicate HugeInside(ts: Tables, info: Infos, m: nat, b: nat, e: nat, u: nat) {
    forall id: Id {:trigger Own(info, m, id, u, 2)} ::
      Own(info, m, id, u, 2) && id in ts && |ts[id]| == 512 && IsHuge(2, ts[id][Idx(2, u)]) ==> ChunkInside(b, e, u)
  }

  ghost predicate Prepared(ts: Tables, info: Infos, kroot: Id, m: nat, b: nat, e: nat, u: nat) {
    Ready(ts, info, kroot, m, u) && HugeInside(ts, info, m, b, e, u)
  }

  lemma SameChunk(u: nat, v: nat)
    requires u < SPACE && v < SPACE && u / 512 == v / 512
    ensures Path(u, 2) == Path(v, 2) && Idx(2, u) == Idx(2, v) && Idx(4, u) == Idx(4, v)
  {
    ChunkPath(u, v);
    PathLast(u, v, 2);
    PathLast(u, v, 1);
  }

  /** The entry that covers u in m's level-2 table is not on the path to another chunk. */
  lemma OtherChunk(inf: Info, m: nat, u: nat, v: nat)
    requires u < SPACE && v < SPACE && u / 512 != v / 512 && inf.home == Path(u, 2)
    ensures !OnEntry(inf, m, v, Idx(2, u))
  {
    ChunkPath(u, v);
  }

  ghost predicate KernelRoot(ts: Tables, info: Infos, kroot: Id) {
    kroot in ts && kroot in info && |ts[kroot]| == 512 && info[kroot].owner == KERNEL && info[kroot].home == []
  }

  /** Work on another chunk's path keeps u prepared. */
  lemma PreparedElsewhere(ts: Tables, ts': Tables, info: Infos, info': Infos, kroot: Id, m: nat, v: nat, b: nat,
                          e: nat, u: nat)
    requires Wf(ts, info) && Distinct(info') && Extends(info, info') && OffPath(ts, ts', info, m, v)
    requires m != KERNEL && KernelRoot(ts, info, kroot) && u < SPACE && v < SPACE && u / 512 != v / 512
    requires Prepared(ts, info, kroot, m, b, e, u)
    ensures Prepared(ts', info', kroot, m, b, e, u)
  {
    var e4 := ts[kroot][Idx(4, u)];
    assert ts'[kroot][Idx(4, u)] == e4;
    var id: Id :| Own(info, m, id, u, 2) && PrivateBelow(ts, info, m, id, u);
    OtherChunk(info[id], m, u, v);
    var e2 := ts[id][Idx(2, u)];
    assert ts'[id][Idx(2, u)] == e2;
    assert Own(info', m, id, u, 2) && PrivateBelow(ts', info', m, id, u);
    forall x: Id | Own(info', m, x, u, 2)
      ensures x == id
    {
      assert SamePlace(info', x, id);
    }
  }

  /** A page of the chunk that was just worked on. */
  lemma PreparedHere(ts: Tables, info: Infos, kroot: Id, m: nat, l2: Id, v: nat, b: nat, e: nat, u: nat)
    requires Distinct(info) && KernelRoot(ts, info, kroot) && u < SPACE && v < SPACE && u / 512 == v / 512
    requires ts[kroot][Idx(4, v)].present && Own(info, m, l2, v, 2) && PrivateBelow(ts, info, m, l2, v)
    requires IsHuge(2, ts[l2][Idx(2, v)]) ==> ChunkInside(b, e, v)
    ensures Prepared(ts, info, kroot, m, b, e, u)
  {
    SameChunk(u, v);
    assert Own(info, m, l2, u, 2) && PrivateBelow(ts, info, m, l2, u);
    forall x: Id | Own(info, m, x, u, 2)
      ensures x == l2
    {
      assert SamePlace(info, x, l2);
    }
    assert u - u % 512 == v - v % 512;
  }

  lemma Facts(st: TableStore, m: nat)
    requires st.Valid() && m in st.mms
    ensures Wf(st.ts, st.info) && Distinct(st.info) && KernelRoot(st.ts, st.info, st.kroot) && m != KERNEL
    ensures MmOk(st.ts, st.info, m, st.mms[m])
  {
    assert MmOk(st.ts, st.info, m, st.mms[m]);
    assert WfTable(st.ts, st.info, st.kroot);
  }

  /** What the first pass leaves on the path to v. */
  ghost predicate Settled(st: TableStore, m: nat, b: nat, e: nat, v: nat, l2: Id)
    reads st
  {
    Own(st.info, m, l2, v, 2) && PrivateBelow(st.ts, st.info, m, l2, v) &&
    (IsHuge(2, st.ts[l2][Idx(2, v)]) ==> ChunkInside(b, e, v))
  }

  /** A 2 MiB leaf that the range covers stays whole, any other is split. */
  method FitChunk(st: TableStore, m: nat, b: nat, e: nat, v: nat, l2: Id) returns (ok: bool, next: nat)
    requires st.Valid() && m in st.mms && Own(st.info, m, l2, v, 2) && PrivateBelow(st.ts, st.info, m, l2, v)
    modifies st
    ensures st.Valid() && Extends(old(st.info), st.info) && SameMms(old(st.mms), st.mms)
    ensures SameLeaves(old(st.ts), st.ts, old(st.info)) && OffPath(old(st.ts), st.ts, old(st.info), m, v)
    ensures next == v + 1 || (next == v - v % 512 + 512 && ChunkInside(b, e, v))
    ensures ok ==> Settled(st, m, b, e, v, l2)
    ensures !ok ==> |st.heap| == 0
  {
    next := v + 1;
    ok := true;
    if st.ts[l2][Idx(2, v)].ps {
      if ChunkInside(b, e, v) {
        next := v - v % 512 + 512;
      } else {
        ok := st.BreakHuge(m, l2, 2, v);
      }
    }
  }

  /** One page of the first pass: a private path, and no 2 MiB leaf that sticks out of
      the range. */
  method PrepareTables(st: TableStore, m: nat, b: nat, e: nat, v: nat) returns (ok: bool, next: nat, ghost l2: Id)
    requires st.Valid() && m in st.mms && v < LIMIT && LeafOf(st.ts, st.mms[m].root, v).Some?
    modifies st
    ensures st.Valid() && Extends(old(st.info), st.info) && SameMms(old(st.mms), st.mms)
    ensures SameLeaves(old(st.ts), st.ts, old(st.info)) && OffPath(old(st.ts), st.ts, old(st.info), m, v)
    ensures next == v + 1 || (next == v - v % 512 + 512 && ChunkInside(b, e, v))
    ensures ok ==> Settled(st, m, b, e, v, l2) && old(ShareEntry(st.ts, st.kroot, 4, v)).present
    ensures !ok ==> |st.heap| == 0 || !old(ShareEntry(st.ts, st.kroot, 4, v)).present
  {
    hide Ready;
    assert MmOk(st.ts, st.info, m, st.mms[m]);
    next := v + 1;
    var rc, id, l1 := PrivatePath(st, m, v);
    l2 := id;
    if rc != 0 {
      return false, next, l2;
    }
    ghost var ts1, info1 := st.ts, st.info;
    ok, next := FitChunk(st, m, b, e, v, id);
    hide TablesOk;
    SameLeavesTrans(old(st.ts), ts1, st.ts, old(st.info), info1);
    OffPathTrans(old(st.ts), ts1, st.ts, old(st.info), info1, m, v);
  }

  lemma PathKept(ts: Tables, ts': Tables, info: Infos, m: nat, v: nat, kroot: Id)
    requires OffPath(ts, ts', info, m, v) && KernelRoot(ts, info, kroot) && m != KERNEL
    ensures kroot in ts' && |ts'[kroot]| == 512 && ts'[kroot][Idx(4, v)] == ts[kroot][Idx(4, v)]
  {
    var e := ts[kroot][Idx(4, v)];
    assert ts'[kroot][Idx(4, v)] == e;
  }

  predicate LowIn(lv: map<nat, Leaf>, u: nat) { u in lv && lv[u].ppn < LIMIT }

  /** The first pass has dealt with the mapped pages from b up to v. */
  ghost predicate PreparedTo(ts: Tables, info: Infos, kroot: Id, m: nat, lv: map<nat, Leaf>, b: nat, e: nat, lo: nat,
                             hi: nat) {
    forall u: nat {:trigger LowIn(lv, u)} :: lo <= u < hi && LowIn(lv, u) ==> Prepared(ts, info, kroot, m, b, e, u)
  }

  lemma PrepareStep(ts: Tables, ts': Tables, info: Infos, info': Infos, kroot: Id, m: nat, lv: map<nat, Leaf>,
                    b: nat, e: nat, v: nat, next: nat, l2: Id)
    requires Wf(ts, info) && Distinct(info') && Extends(info, info') && OffPath(ts, ts', info, m, v) && m != KERNEL
    requires KernelRoot(ts, info, kroot) && KernelRoot(ts', info', kroot) && ts[kroot][Idx(4, v)].present
    requires Own(info', m, l2, v, 2) && PrivateBelow(ts', info', m, l2, v)
    requires (IsHuge(2, ts'[l2][Idx(2, v)]) ==> ChunkInside(b, e, v))
    requires v < LIMIT && (next == v + 1 || next == v - v % 512 + 512) && forall u :: u in lv ==> u < LIMIT
    requires PreparedTo(ts, info, kroot, m, lv, b, e, b, v)
    ensures PreparedTo(ts', info', kroot, m, lv, b, e, b, next)
  {
    PathKept(ts, ts', info, m, v, kroot);
    forall u: nat | b <= u < next && LowIn(lv, u)
      ensures Prepared(ts', info', kroot, m, b, e, u)
    {
      if u / 512 == v / 512 {
        PreparedHere(ts', info', kroot, m, l2, v, b, e, u);
      } else {
        assert u < v;
        PreparedElsewhere(ts, ts', info, info', kroot, m, v, b, e, u);
      }
    }
  }

  lemma BoundedView(k: Kernel, m: nat)
    requires k.Valid() && m in k.st.mms
    ensures m in k.view && forall u :: u in k.view[m] ==> u < LIMIT
  {
    MmRelease.ViewOf(k, m);
  }

  ghost predicate PassOne(k: Kernel, m: nat, b: nat, e: nat, v: nat)
    reads k, k.st
  {
    m in k.view && PreparedTo(k.st.ts, k.st.info, k.st.kroot, m, k.view[m], b, e, b, v)
  }

  /** One mapped page of the first pass. */
  method PrepareOne(k: Kernel, m: nat, b: nat, e: nat, v: nat) returns (ok: bool, next: nat)
    requires k.Valid() && m in k.st.mms && v < LIMIT && m in k.view && v in k.view[m] && PassOne(k, m, b, e, v)
    modifies k.st
    ensures k.Valid() && SameMms(old(k.st.mms), k.st.mms) && k.st.mms.Keys == old(k.st.mms.Keys)
    ensures next == v + 1 || (next == v - v % 512 + 512 && ChunkInside(b, e, v))
    ensures ok ==> PassOne(k, m, b, e, next)
    ensures !ok ==> |k.st.heap| == 0 || !Has(k.S(), KERNEL, v)
  {
    hide TablesOk, Views, PreparedTo, Ready;
    ghost var ts0, info0, mms0 := k.st.ts, k.st.info, k.st.mms;
    Facts(k.st, m);
    KernelShown(k.st, v);
    RootsOk(k.st);
    LeafInView(k.st, m, v);
    BoundedView(k, m);
    ghost var l2;
    ok, next, l2 := PrepareTables(k.st, m, b, e, v);
    ViewsSame(ts0, k.st.ts, info0, mms0, k.st.mms, k.st.kroot);
    Facts(k.st, m);
    if ok {
      PrepareStep(ts0, k.st.ts, info0, k.st.info, k.st.kroot, m, k.view[m], b, e, v, next, l2);
    }
  }

  lemma SkipPrepared(k: Kernel, m: nat, b: nat, e: nat, v: nat)
    requires PassOne(k, m, b, e, v) && !LowIn(k.view[m], v)
    ensures PassOne(k, m, b, e, v + 1)
  {
  }

  /** The preparation pass. No leaf changes, whether it succeeds or not. */
  method Prepare(k: Kernel, m: nat, b: nat, e: nat) returns (ok: bool)
    requires k.Valid() && m in k.st.mms && b <= e <= LIMIT
    modifies k.st
    ensures k.Valid() && SameMms(old(k.st.mms), k.st.mms) && k.st.mms.Keys == old(k.st.mms.Keys)
    ensures ok ==> PassOne(k, m, b, e, e)
    ensures !ok ==> |k.st.heap| == 0 || exists u: nat :: b <= u < e && !Has(k.S(), KERNEL, u)
  {
    hide TableStore.Valid, FrameTable.Valid, Views, PreparedTo, SameMms;
    MmRelease.ViewOf(k, m);
    ghost var mms0 := k.st.mms;
    NothingPrepared(k, m, b, e);
    SameMmsSelf(mms0);
    var v := b;
    while v < e
      invariant b <= v <= e && k.Valid() && SameMms(mms0, k.st.mms) && k.st.mms.Keys == mms0.Keys
      invariant PassOne(k, m, b, e, v)
    {
      var yes := Mapped(k, m, v);
      if !yes {
        SkipPrepared(k, m, b, e, v);
        v := v + 1;
      } else {
        ghost var mms1 := k.st.mms;
        var next;
        ok, next := PrepareOne(k, m, b, e, v);
        SameMmsTrans(mms0, mms1, k.st.mms);
        if !ok {
          return;
        }
        v := next;
      }
    }
    ok := true;
  }

  lemma NothingPrepared(k: Kernel, m: nat, b: nat, e: nat)
    requires m in k.view
    ensures PassOne(k, m, b, e, b)
  {
  }

  lemma SameMmsSelf(a: map<nat, Mm>)
    ensures SameMms(a, a)
  {
  }

  // ------------------------------------------------------------------- commit

  /** The mapped pages from b up to v whose frames lie below 4 GiB. */
  function Gone(lv: map<nat, Leaf>, b: nat, v: nat): set<nat> { set u | u in lv && b <= u < v && lv[u].ppn < LIMIT }

  function SansChunk(lv: map<nat, Leaf>, v: nat): map<nat, Leaf> { map u | u in lv && u / 512 != v / 512 :: lv[u] }

  /** Under a 2 MiB leaf of m's own every page is mapped, low and unowned. */
  lemma HugeChunk(st: TableStore, m: nat, l2: Id, v: nat, u: nat)
    requires st.Valid() && m in st.mms && l2 in st.ts && Own(st.info, m, l2, v, 2) && IsHuge(2, st.ts[l2][Idx(2, v)])
    requires v < LIMIT && u < LIMIT && u / 512 == v / 512
    ensures LeafOf(st.ts, st.mms[m].root, u).Some?
    ensures LeafOf(st.ts, st.mms[m].root, u).value.ppn < LIMIT && !LeafOf(st.ts, st.mms[m].root, u).value.owned
  {
    Facts(st, m);
    SameChunk(u, v);
    Reach(st.ts, st.info, st.mms[m].root, l2, u);
    assert WfTable(st.ts, st.info, l2);
    var e := st.ts[l2][Idx(2, v)];
    assert WfEntry(st.info, l2, Idx(2, v), e);
    WindowAt(v, 2);
    HugeStep(st.ts, l2, 2, u);
    HugeLow(2, e, u);
  }

  /** Forgetting unowned leaves changes no count. */
  lemma LessenUnowned(refs: map<nat, nat>, lv: map<nat, Leaf>, m: nat, g: set<nat>, h: set<nat>)
    requires g <= h && forall u :: u in h && u !in g && u in lv ==> !lv[u].owned
    ensures Lessen(refs, lv, m, h) == Lessen(refs, lv, m, g)
  {
    forall f
      ensures Lost(lv, m, h, f) == Lost(lv, m, g, f)
    {
    }
  }

  /** A chunk of unowned low pages goes at once. */
  lemma PurgeChunk(s: State, m: nat, b: nat, v: nat, lv: map<nat, Leaf>)
    requires m in s.view && b <= v - v % 512
    requires lv == s.view[m] - Gone(s.view[m], b, v)
    requires forall u: nat :: u / 512 == v / 512 ==> u in lv && lv[u].ppn < LIMIT && !lv[u].owned
    ensures var t := Purge(s, m, Gone(s.view[m], b, v));
            Purge(s, m, Gone(s.view[m], b, v - v % 512 + 512)) == t.(view := t.view[m := SansChunk(lv, v)])
  {
    var lv0 := s.view[m];
    var g, h := Gone(lv0, b, v), Gone(lv0, b, v - v % 512 + 512);
    forall u: nat
      ensures u in h <==> u in g || u / 512 == v / 512
    {
      assert u / 512 == v / 512 <==> v - v % 512 <= u < v - v % 512 + 512;
      if u / 512 == v / 512 {
        assert u in lv;
      }
    }
    forall u | u in h && u !in g && u in lv0
      ensures !lv0[u].owned
    {
      assert u in lv;
    }
    LessenUnowned(s.refs, lv0, m, g, h);
    assert lv0 - h == SansChunk(lv, v);
  }

  lemma ViewsChunk(ts: Tables, ts': Tables, info: Infos, mms: map<nat, Mm>, kroot: Id, m: nat, v: nat)
    requires m in mms && Rooted(info, mms, kroot)
    requires forall r: Id, u: nat {:trigger LeafOf(ts', r, u)} :: r in info && info[r].home == [] && u < SPACE ==>
               LeafOf(ts', r, u) == if r == mms[m].root && u / 512 == v / 512 then None else LeafOf(ts, r, u)
    ensures var a := Views(ts, mms, kroot);
            Views(ts', mms, kroot) == a[m := SansChunk(a[m], v)]
  {
    var a, b := Views(ts, mms, kroot), Views(ts', mms, kroot);
    var root := RootOf(mms, kroot, m);
    forall k | k in mms.Keys + {KERNEL}
      ensures b[k] == if k == m then SansChunk(a[m], v) else a[k]
    {
      var r := RootOf(mms, kroot, k);
      assert r == root ==> k == m;
      ChunkLeaves(ts, ts', r, r == root, v);
    }
  }

  lemma ChunkLeaves(ts: Tables, ts': Tables, r: Id, hit: bool, v: nat)
    requires forall u: nat {:trigger LeafOf(ts', r, u)} :: u < SPACE ==>
               LeafOf(ts', r, u) == if hit && u / 512 == v / 512 then None else LeafOf(ts, r, u)
    ensures var a := LeavesOf(ts, r);
            LeavesOf(ts', r) == if hit then SansChunk(a, v) else a
  {
    var a, b := LeavesOf(ts, r), LeavesOf(ts', r);
    forall u: nat | u < LIMIT
      ensures u in b <==> u in a && !(hit && u / 512 == v / 512)
      ensures u in b ==> b[u] == a[u]
    {
      assert LeafOf(ts', r, u) == if hit && u / 512 == v / 512 then None else LeafOf(ts, r, u);
    }
  }

  /** l2[l2i] = 0. */
  method WipeChunk(k: Kernel, m: nat, l2: Id, v: nat)
    requires k.Valid() && m in k.st.mms && m in k.view && l2 in k.st.ts && Own(k.st.info, m, l2, v, 2) && v < LIMIT
    requires IsHuge(2, k.st.ts[l2][Idx(2, v)])
    modifies k`view, k.st`ts
    ensures k.Valid() && OffPath(old(k.st.ts), k.st.ts, k.st.info, m, v)
    ensures k.view == old(k.view)[m := SansChunk(old(k.view[m]), v)]
  {
    ghost var ts0 := k.st.ts;
    Facts(k.st, m);
    RootsOk(k.st);
    ClearChunk(k.st, m, l2, v);
    hide TablesOk, Views;
    ViewsChunk(ts0, k.st.ts, k.st.info, k.st.mms, k.st.kroot, m, v);
    OffPathStep(ts0, k.st.ts, k.st.info, m, v, l2, 2);
    k.view := Views(k.st.ts, k.st.mms, k.st.kroot);
  }

  /** l1[l1i] = 0; was is the entry that stood there. */
  method EraseLeaf(k: Kernel, m: nat, l1: Id, v: nat) returns (was: Entry)
    requires k.Valid() && m in k.st.mms && m in k.view && l1 in k.st.ts && Own(k.st.info, m, l1, v, 3) && v < LIMIT
    requires v in k.view[m]
    modifies k`view, k.st`ts
    ensures k.Valid() && OnlyTable(old(k.st.ts), k.st.ts, l1) && OffPath(old(k.st.ts), k.st.ts, k.st.info, m, v)
    ensures k.view == old(k.view)[m := old(k.view[m]) - {v}] && old(k.view[m])[v] == ToLeaf(was)
  {
    hide TablesOk, Views, LeafAt;
    ghost var ts0 := k.st.ts;
    Facts(k.st, m);
    RootsOk(k.st);
    LeafInView(k.st, m, v);
    MapLeafHelp(k.st, m, v, l1);
    was := k.st.ts[l1][Idx(1, v)];
    WriteLeaf(k.st, m, l1, v, NIL);
    ViewsUpdated(ts0, k.st.ts, k.st.info, k.st.mms, k.st.mms, k.st.kroot, m, v, None);
    OffPathStep(ts0, k.st.ts, k.st.info, m, v, l1, 1);
    k.view := Views(k.st.ts, k.st.mms, k.st.kroot);
  }

  /** Clear one leaf, and frame_release its frame if it is owned. */
  method WipeLeaf(k: Kernel, m: nat, l1: Id, v: nat)
    requires k.Valid() && m in k.st.mms && m in k.view && l1 in k.st.ts && Own(k.st.info, m, l1, v, 3) && v < LIMIT
    requires v in k.view[m]
    modifies k`view, k.st`ts, k.ft
    ensures k.Valid() && OnlyTable(old(k.st.ts), k.st.ts, l1) && OffPath(old(k.st.ts), k.st.ts, k.st.info, m, v)
    ensures k.S() == Clear(old(k.S()), m, v)
  {
    hide TableStore.Valid, Views, OnlyTable, OffPath;
    var was := EraseLeaf(k, m, l1, v);
    if was.owned {
      k.ft.Release(was.ppn);
    }
  }

  lemma InfoSame(ts: Tables, info: Infos, info': Infos)
    requires Shaped(ts, info) && Shaped(ts, info') && Extends(info, info')
    ensures info' == info
  {
    assert forall x :: x in info ==> x in info' && info'[x] == info[x];
  }

  /** Clearing at v leaves the rest of the range prepared. */
  lemma CommitPrepared(ts: Tables, ts': Tables, info: Infos, kroot: Id, m: nat, lv: map<nat, Leaf>, b: nat, e: nat,
                       v: nat, next: nat, l2: Id)
    requires Wf(ts, info) && OffPath(ts, ts', info, m, v) && m != KERNEL && KernelRoot(ts, info, kroot) && v < LIMIT
    requires PreparedTo(ts, info, kroot, m, lv, b, e, v, e) && (forall u :: u in lv ==> u < LIMIT)
    requires next == v - v % 512 + 512 ||
             (next == v + 1 && Own(info, m, l2, v, 2) && PrivateBelow(ts, info, m, l2, v) && !ts[l2][Idx(2, v)].ps &&
              l2 in ts' && ts'[l2] == ts[l2] && ts[kroot][Idx(4, v)].present)
    ensures PreparedTo(ts', info, kroot, m, lv, b, e, next, e)
  {
    PathKept(ts, ts', info, m, v, kroot);
    forall u: nat | next <= u < e && LowIn(lv, u)
      ensures Prepared(ts', info, kroot, m, b, e, u)
    {
      if u / 512 == v / 512 {
        assert next == v + 1;
        PreparedHere(ts', info, kroot, m, l2, v, b, e, u);
      } else {
        PreparedElsewhere(ts, ts', info, info, kroot, m, v, b, e, u);
      }
    }
  }

  lemma PurgeNext(s: State, m: nat, b: nat, v: nat)
    requires m in s.view && LowIn(s.view[m], v) && b <= v
    ensures Purge(s, m, Gone(s.view[m], b, v + 1)) == Clear(Purge(s, m, Gone(s.view[m], b, v)), m, v)
  {
    assert Gone(s.view[m], b, v + 1) == Gone(s.view[m], b, v) + {v};
    PurgeOne(s, m, Gone(s.view[m], b, v), v);
  }

  lemma PurgeNothing(s: State, m: nat, b: nat, v: nat)
    requires m in s.view && b <= v && !LowIn(s.view[m], v)
    ensures Gone(s.view[m], b, v + 1) == Gone(s.view[m], b, v)
  {
  }

  /** The path of a prepared page is found as it is. */
  method FindPrepared(k: Kernel, m: nat, v: nat, ghost b: nat, ghost e: nat) returns (l2: Id, l1: Option<Id>)
    requires k.Valid() && m in k.st.mms && v < LIMIT && Prepared(k.st.ts, k.st.info, k.st.kroot, m, b, e, v)
    modifies k.st
    ensures k.Valid() && SameMms(old(k.st.mms), k.st.mms) && k.st.ts == old(k.st.ts) && k.st.info == old(k.st.info)
    ensures l2 in k.st.ts && |k.st.ts[l2]| == 512 && Own(k.st.info, m, l2, v, 2)
    ensures PrivateBelow(k.st.ts, k.st.info, m, l2, v)
    ensures if k.st.ts[l2][Idx(2, v)].ps then ChunkInside(b, e, v)
            else l1.Some? && l1.value in k.st.ts && Own(k.st.info, m, l1.value, v, 3) && l1.value != l2
  {
    ghost var ts0, info0, mms0 := k.st.ts, k.st.info, k.st.mms;
    Facts(k.st, m);
    RootsOk(k.st);
    var rc;
    rc, l2, l1 := PrivatePath(k.st, m, v);
    assert rc == 0; // the commit pass cannot fail
    Facts(k.st, m);
    InfoSame(ts0, info0, k.st.info);
    hide TablesOk, Views;
    ViewsSame(ts0, k.st.ts, info0, mms0, k.st.mms, k.st.kroot);
  }

  ghost predicate PassTwo(k: Kernel, m: nat, b: nat, e: nat, v: nat, s0: State)
    reads k, k.st, k.ft
  {
    m in s0.view && (forall u :: u in s0.view[m] ==> u < LIMIT) && k.S() == Purge(s0, m, Gone(s0.view[m], b, v)) &&
    PreparedTo(k.st.ts, k.st.info, k.st.kroot, m, s0.view[m], b, e, v, e)
  }

  method CommitChunk(k: Kernel, m: nat, b: nat, e: nat, v: nat, l2: Id, ghost s0: State) returns (next: nat)
    requires k.Valid() && m in k.st.mms && b <= v < e <= LIMIT && m in k.view && PassTwo(k, m, b, e, v, s0)
    requires l2 in k.st.ts && Own(k.st.info, m, l2, v, 2) && IsHuge(2, k.st.ts[l2][Idx(2, v)]) && ChunkInside(b, e, v)
    modifies k`view, k.st`ts
    ensures k.Valid() && v < next <= e && PassTwo(k, m, b, e, next, s0)
  {
    hide TablesOk, FrameTable.Valid, Views, Prepared, Purge, Lessen, SansChunk;
    PurgedLeaf(s0, m, b, v);
    Facts(k.st, m);
    ghost var ts0 := k.st.ts;
    forall u: nat | u / 512 == v / 512
      ensures u in k.view[m] && k.view[m][u].ppn < LIMIT && !k.view[m][u].owned
    {
      HugeChunk(k.st, m, l2, v, u);
      LeafInView(k.st, m, u);
    }
    PurgeChunk(s0, m, b, v, k.view[m]);
    WipeChunk(k, m, l2, v);
    next := v - v % 512 + 512;
    CommitPrepared(ts0, k.st.ts, k.st.info, k.st.kroot, m, s0.view[m], b, e, v, next, l2);
  }

  method CommitLeaf(k: Kernel, m: nat, b: nat, e: nat, v: nat, l2: Id, l1: Id, ghost s0: State) returns (next: nat)
    requires k.Valid() && m in k.st.mms && b <= v < e <= LIMIT && m in k.view && LowIn(k.view[m], v)
    requires PassTwo(k, m, b, e, v, s0)
    requires LowIn(s0.view[m], v) && l2 in k.st.ts && Own(k.st.info, m, l2, v, 2)
    requires PrivateBelow(k.st.ts, k.st.info, m, l2, v)
    requires !k.st.ts[l2][Idx(2, v)].ps && l1 in k.st.ts && Own(k.st.info, m, l1, v, 3) && l1 != l2
    modifies k`view, k.st`ts, k.ft
    ensures k.Valid() && v < next <= e && PassTwo(k, m, b, e, next, s0)
  {
    hide TablesOk, FrameTable.Valid, Views, Purge, Lessen, Clear;
    assert Prepared(k.st.ts, k.st.info, k.st.kroot, m, b, e, v);
    TopPresent(k.st, m, b, e, v);
    Facts(k.st, m);
    ghost var ts0 := k.st.ts;
    PurgeNext(s0, m, b, v);
    WipeLeaf(k, m, l1, v);
    next := v + 1;
    CommitPrepared(ts0, k.st.ts, k.st.info, k.st.kroot, m, s0.view[m], b, e, v, next, l2);
  }

  /** One mapped page of the second pass. */
  method CommitOne(k: Kernel, m: nat, b: nat, e: nat, v: nat, ghost s0: State) returns (next: nat)
    requires k.Valid() && m in k.st.mms && b <= v < e <= LIMIT && m in k.view && LowIn(k.view[m], v)
    requires PassTwo(k, m, b, e, v, s0)
    modifies k`view, k.st, k.ft
    ensures k.Valid() && SameMms(old(k.st.mms), k.st.mms) && k.st.mms.Keys == old(k.st.mms.Keys)
    ensures v < next <= e && PassTwo(k, m, b, e, next, s0)
  {
    hide TableStore.Valid, FrameTable.Valid, Views, Prepared, Purge;
    PurgedLeaf(s0, m, b, v);
    assert LowIn(s0.view[m], v);
    assert Prepared(k.st.ts, k.st.info, k.st.kroot, m, b, e, v);
    var l2, l1 := FindPrepared(k, m, v, b, e);
    if k.st.ts[l2][Idx(2, v)].ps {
      next := CommitChunk(k, m, b, e, v, l2, s0);
    } else {
      next := CommitLeaf(k, m, b, e, v, l2, l1.value, s0);
    }
  }

  lemma PurgedLeaf(s: State, m: nat, b: nat, v: nat)
    requires m in s.view
    ensures var lv := Purge(s, m, Gone(s.view[m], b, v)).view[m];
            lv == s.view[m] - Gone(s.view[m], b, v) && forall u :: u in lv ==> u in s.view[m] && lv[u] == s.view[m][u]
  {
  }

  lemma TopPresent(st: TableStore, m: nat, b: nat, e: nat, v: nat)
    requires st.Valid() && m in st.mms && Prepared(st.ts, st.info, st.kroot, m, b, e, v)
    ensures st.kroot in st.ts && |st.ts[st.kroot]| == 512 && st.ts[st.kroot][Idx(4, v)].present
  {
    Facts(st, m);
  }

  lemma PassTwoSkip(k: Kernel, m: nat, b: nat, e: nat, v: nat, s0: State)
    requires PassTwo(k, m, b, e, v, s0) && b <= v && m in k.view && !LowIn(k.view[m], v)
    ensures PassTwo(k, m, b, e, v + 1, s0)
  {
    PurgedLeaf(s0, m, b, v);
    PurgeNothing(s0, m, b, v);
  }

  lemma PassTwoStart(k: Kernel, m: nat, b: nat, e: nat)
    requires k.Valid() && m in k.st.mms && PassOne(k, m, b, e, e)
    ensures PassTwo(k, m, b, e, b, k.S())
  {
    BoundedView(k, m);
    var lv := k.view[m];
    assert Gone(lv, b, b) == {};
    assert forall f :: Lost(lv, m, {}, f) == {};
    assert Lessen(k.ft.refs, lv, m, {}) == k.ft.refs;
    assert lv - {} == lv;
  }

  /** The commit pass: it clears the leaves of the range and cannot fail. */
  method Commit(k: Kernel, m: nat, b: nat, e: nat)
    requires k.Valid() && m in k.st.mms && b <= e <= LIMIT && PassOne(k, m, b, e, e)
    modifies k`view, k.st, k.ft
    ensures k.Valid() && SameMms(old(k.st.mms), k.st.mms) && k.st.mms.Keys == old(k.st.mms.Keys)
    ensures m in old(k.view) && k.S() == Purge(old(k.S()), m, Gone(old(k.view[m]), b, e))
  {
    hide TableStore.Valid, FrameTable.Valid, Views, PreparedTo, SameMms, Purge;
    ghost var s0, mms0 := k.S(), k.st.mms;
    PassTwoStart(k, m, b, e);
    SameMmsSelf(mms0);
    var v := b;
    while v < e
      invariant b <= v <= e && k.Valid() && SameMms(mms0, k.st.mms) && k.st.mms.Keys == mms0.Keys
      invariant PassTwo(k, m, b, e, v, s0)
    {
      var yes := Mapped(k, m, v);
      if !yes {
        PassTwoSkip(k, m, b, e, v, s0);
        v := v + 1;
      } else {
        ghost var mms1 := k.st.mms;
        v := CommitOne(k, m, b, e, v, s0);
        SameMmsTrans(mms0, mms1, k.st.mms);
      }
    }
  }

  /** The page range that mm_unmap_user_range works on: clamped to [2 MiB, 4 GiB) and
      rounded outwards; empty ranges stay empty. */
  function PageRange(vaBegin: nat, vaEnd: nat): (r: (nat, nat))
    ensures r.0 <= r.1 <= LIMIT
  {
    var lo := if vaBegin < 0x20_0000 then 0x20_0000 else vaBegin;
    var hi := if vaEnd > 0x1_0000_0000 then 0x1_0000_0000 else vaEnd;
    if vaEnd <= vaBegin || lo >= hi then (0, 0) else (lo / 4096, (hi + 4095) / 4096)
  }

  function PageOf(x: nat): nat { x / 4096 }

  /** Some byte of page v lies in [vaBegin, vaEnd), at or above 2 MiB and below 4 GiB. */
  ghost predicate Touched(vaBegin: nat, vaEnd: nat, v: nat) {
    exists x: nat :: vaBegin <= x < vaEnd && 0x20_0000 <= x < 0x1_0000_0000 && PageOf(x) == v
  }

  /** The pages worked on are exactly those. */
  lemma RangeIs(vaBegin: nat, vaEnd: nat, v: nat)
    ensures var r := PageRange(vaBegin, vaEnd); r.0 <= v < r.1 <==> Touched(vaBegin, vaEnd, v)
  {
    var r := PageRange(vaBegin, vaEnd);
    if r.0 <= v < r.1 {
      var lo := if vaBegin < 0x20_0000 then 0x20_0000 else vaBegin;
      var x := if v * 4096 < lo then lo else v * 4096;
      assert PageOf(x) == v;
    }
    if Touched(vaBegin, vaEnd, v) {
      var x: nat :| vaBegin <= x < vaEnd && 0x20_0000 <= x < 0x1_0000_0000 && PageOf(x) == v;
      assert v * 4096 <= x < v * 4096 + 4096;
    }
  }

  /** Page u of n is gone if and only if it is a page of m that the range of addresses touches and
      its frame lies below 4 GiB; what is left is as it was. */
  ghost predicate Removed(s: State, s': State, m: nat, vaBegin: nat, vaEnd: nat) {
    forall n: nat, u: nat {:trigger Has(s', n, u)} ::
      (Has(s', n, u) <==> Has(s, n, u) && !(n == m && Touched(vaBegin, vaEnd, u) && s.view[n][u].ppn < LIMIT)) &&
      (Has(s', n, u) ==> s'.view[n][u] == s.view[n][u])
  }

  lemma PurgeRemoved(s: State, m: nat, vaBegin: nat, vaEnd: nat)
    requires m in s.view
    ensures var r := PageRange(vaBegin, vaEnd);
            Removed(s, Purge(s, m, Gone(s.view[m], r.0, r.1)), m, vaBegin, vaEnd)
  {
    hide Touched, PageRange;
    var r := PageRange(vaBegin, vaEnd);
    var s' := Purge(s, m, Gone(s.view[m], r.0, r.1));
    forall n: nat, u: nat
      ensures Has(s', n, u) <==> Has(s, n, u) && !(n == m && Touched(vaBegin, vaEnd, u) && s.view[n][u].ppn < LIMIT)
      ensures Has(s', n, u) ==> s'.view[n][u] == s.view[n][u]
    {
      UnmapLeaves(s, m, r.0, r.1, n, u);
      RangeIs(vaBegin, vaEnd, u);
    }
  }

  /** mm_unmap_user_range: on success the leaves of the range whose frames lie below 4 GiB
      are gone, each owned one with its reference; on failure nothing has changed. */
  method Unmap(k: Kernel, m: nat, vaBegin: nat, vaEnd: nat) returns (rc: int)
    requires k.Valid()
    modifies k`view, k.st, k.ft
    ensures k.Valid() && SameMms(old(k.st.mms), k.st.mms) && (rc == 0 || rc == -1)
    ensures m !in old(k.st.mms) ==> rc == -1
    ensures rc != 0 ==> k.S() == old(k.S())
    ensures rc == 0 ==> m in old(k.view)
    ensures rc == 0 ==>
              var r := PageRange(vaBegin, vaEnd);
              k.S() == Purge(old(k.S()), m, Gone(old(k.view[m]), r.0, r.1))
    ensures rc == 0 ==> Removed(old(k.S()), k.S(), m, vaBegin, vaEnd)
    ensures rc == -1 && m in old(k.st.mms) ==>
              |k.st.heap| == 0 || exists u: nat :: Touched(vaBegin, vaEnd, u) && !Has(k.S(), KERNEL, u)
  {
    hide TableStore.Valid, FrameTable.Valid, Views, PreparedTo, Purge, Removed, Touched;
    if m !in k.st.mms {
      return -1;
    }
    MmRelease.ViewOf(k, m);
    PurgeRemoved(k.S(), m, vaBegin, vaEnd);
    var r := PageRange(vaBegin, vaEnd);
    if r.0 == r.1 {
      EmptyPurge(k, m, r.0);
      return 0;
    }
    var ok := Prepare(k, m, r.0, r.1);
    if !ok {
      if u: nat :| r.0 <= u < r.1 && !Has(k.S(), KERNEL, u) { RangeIs(vaBegin, vaEnd, u); }
      return -1;
    }
    ghost var mms1 := k.st.mms;
    Commit(k, m, r.0, r.1);
    SameMmsTrans(old(k.st.mms), mms1, k.st.mms);
    rc := 0;
  }

  lemma EmptyPurge(k: Kernel, m: nat, b: nat)
    requires k.Valid() && m in k.view
    ensures k.S() == Purge(k.S(), m, Gone(k.view[m], b, b))
  {
    var lv := k.view[m];
    assert Gone(lv, b, b) == {};
    assert forall f :: Lost(lv, m, {}, f) == {};
    assert Lessen(k.ft.refs, lv, m, {}) == k.ft.refs;
    assert lv - {} == lv && k.view[m := lv] == k.view;
  }

  // ------------------------------------------------------- what unmap guarantees

  /** After a successful unmap a page of the range is still mapped exactly when its
      frame lies at or above 4 GiB; pages outside the range and other address spaces
      keep their leaves. */
  lemma UnmapLeaves(s: State, m: nat, b: nat, e: nat, n: nat, u: nat)
    requires m in s.view
    ensures var s' := Purge(s, m, Gone(s.view[m], b, e));
            (Has(s', n, u) <==> Has(s, n, u) && !(n == m && b <= u < e && s.view[m][u].ppn < LIMIT)) &&
            (Has(s', n, u) ==> s'.view[n][u] == s.view[n][u])
  {
  }

  /** So no leaf is left where the addresses touch if and only if no leaf there named a frame at
      or above 4 GiB. */
  lemma UnmapEmpties(s: State, s': State, m: nat, vaBegin: nat, vaEnd: nat)
    requires m in s.view && Removed(s, s', m, vaBegin, vaEnd)
    ensures (forall u :: Touched(vaBegin, vaEnd, u) ==> !Has(s', m, u)) <==>
            (forall u :: Touched(vaBegin, vaEnd, u) && Has(s, m, u) ==> s.view[m][u].ppn < LIMIT)
  {
    hide Touched;
    forall u: nat | Touched(vaBegin, vaEnd, u)
      ensures !Has(s', m, u) <==> (Has(s, m, u) ==> s.view[m][u].ppn < LIMIT)
    {
    }
  }

  /** A page of a device register block above 4 GiB survives its own unmap. */
  lemma DevicePageStays(s: State, m: nat, v: nat)
    requires m in s.view && v < LIMIT
    ensures var s1 := Device(s, m, v, 0x18_0000, true);
            Has(Purge(s1, m, Gone(s1.view[m], v, v + 1)), m, v)
  {
    var s1 := Device(s, m, v, 0x18_0000, true);
    assert s1.view[m][v].ppn == 0x18_0000;
    UnmapLeaves(s1, m, v, v + 1, m, v);
  }

  /** The owned leaves of the range that name f. */
  function OwnedIn(lv: map<nat, Leaf>, m: nat, b: nat, e: nat, f: nat): set<Ref> {
    set u | u in lv && b <= u < e && lv[u].owned && lv[u].ppn == f :: MapRef(m, u)
  }

  lemma LostIs(lv: map<nat, Leaf>, m: nat, b: nat, e: nat, f: nat)
    requires f < LIMIT
    ensures Lost(lv, m, Gone(lv, b, e), f) == OwnedIn(lv, m, b, e, f)
  {
    forall u: nat
      ensures MapRef(m, u) in Lost(lv, m, Gone(lv, b, e), f) <==> MapRef(m, u) in OwnedIn(lv, m, b, e, f)
    {
    }
  }

  lemma RangeReleases(s: State, ram: set<nat>, m: nat, b: nat, e: nat, f: nat)
    requires Steady(s, ram) && m in s.view && m != KERNEL && f < LIMIT
    ensures Steady(Purge(s, m, Gone(s.view[m], b, e)), ram)
    ensures Live(Purge(s, m, Gone(s.view[m], b, e)), f) == Live(s, f) - |OwnedIn(s.view[m], m, b, e, f)|
  {
    var gone := Gone(s.view[m], b, e);
    PurgeSteady(s, ram, m, gone);
    LostIs(s.view[m], m, b, e, f);
    PurgeRefs(s, m, gone, f);
    assert Counted(s, multiset{}, f);
  }

  /** The owned leaves that name f where the addresses touch. */
  ghost function OwnedTouched(lv: map<nat, Leaf>, m: nat, vaBegin: nat, vaEnd: nat, f: nat): set<Ref> {
    set u | u in lv && Touched(vaBegin, vaEnd, u) && lv[u].owned && lv[u].ppn == f :: MapRef(m, u)
  }

  /** Every frame loses as many references as owned leaves that the addresses touch named it. */
  lemma UnmapReleases(s: State, ram: set<nat>, m: nat, vaBegin: nat, vaEnd: nat, f: nat)
    requires Steady(s, ram) && m in s.view && m != KERNEL && f < LIMIT
    ensures var r := PageRange(vaBegin, vaEnd); var s' := Purge(s, m, Gone(s.view[m], r.0, r.1));
            Steady(s', ram) && Live(s', f) == Live(s, f) - |OwnedTouched(s.view[m], m, vaBegin, vaEnd, f)|
  {
    hide Touched, PageRange, Steady;
    var r, lv := PageRange(vaBegin, vaEnd), s.view[m];
    RangeReleases(s, ram, m, r.0, r.1, f);
    forall u: nat
      ensures MapRef(m, u) in OwnedTouched(lv, m, vaBegin, vaEnd, f) <==> MapRef(m, u) in OwnedIn(lv, m, r.0, r.1, f)
    {
      RangeIs(vaBegin, vaEnd, u);
    }
    assert OwnedTouched(lv, m, vaBegin, vaEnd, f) == OwnedIn(lv, m, r.0, r.1, f);
  }
}
