/**
Address spaces as the rest of the kernel sees them: page tables, frame references
and the exec image cache together, with the operations of core/mm.c on them.
*/
module AddressSpaces {
  import opened Basics
  import opened PageTables
  import opened MmTables
  import opened MmPaths
  import opened FrameSharing
  import opened MmLifecycle

  // ------------------------------------------------------------------- views

  /** The user leaves below a root, as the hardware walk finds them. */
  ghost function LeavesOf(ts: Tables, root: Id): map<nat, Leaf> {
    map v: nat | v < LIMIT && LeafOf(ts, root, v).Some? :: LeafOf(ts, root, v).value
  }

  /** Every address space's user leaves; the kernel's own count as address space 0. */
  ghost function Views(ts: Tables, mms: map<nat, Mm>, kroot: Id): View {
    map m | m in mms.Keys + {KERNEL} :: LeavesOf(ts, RootOf(mms, kroot, m))
  }

  ghost function RootOf(mms: map<nat, Mm>, kroot: Id, m: nat): Id
    requires m in mms.Keys + {KERNEL}
  {
    if m == KERNEL then kroot else mms[m].root
  }

  /** Address spaces have known roots, no two the same. */
  ghost predicate Rooted(info: Infos, mms: map<nat, Mm>, kroot: Id) {
    KERNEL !in mms &&
    (forall m {:trigger RootOf(mms, kroot, m)} :: m in mms.Keys + {KERNEL} ==>
      var r := RootOf(mms, kroot, m); r in info && info[r].home == [] && info[r].owner == m)
  }

  lemma RootsOk(st: TableStore)
    requires st.Valid()
    ensures Rooted(st.info, st.mms, st.kroot)
  {
    assert KERNEL in st.mms ==> MmOk(st.ts, st.info, KERNEL, st.mms[KERNEL]);
    forall m | m in st.mms.Keys + {KERNEL}
      ensures var r := RootOf(st.mms, st.kroot, m); r in st.info && st.info[r].home == [] && st.info[r].owner == m
    {
      assert m in st.mms ==> MmOk(st.ts, st.info, m, st.mms[m]);
    }
  }

  lemma ViewsSame(ts: Tables, ts': Tables, info: Infos, mms: map<nat, Mm>, mms': map<nat, Mm>, kroot: Id)
    requires SameLeaves(ts, ts', info) && SameMms(mms, mms') && Rooted(info, mms, kroot)
    ensures Views(ts', mms', kroot) == Views(ts, mms, kroot)
  {
    forall m | m in mms.Keys + {KERNEL}
      ensures LeavesOf(ts', RootOf(mms', kroot, m)) == LeavesOf(ts, RootOf(mms, kroot, m))
    {
      assert m in mms ==> mms'[m].root == mms[m].root;
      LeavesSame(ts, ts', info, RootOf(mms, kroot, m));
    }
  }

  lemma LeavesUpdated(ts: Tables, ts': Tables, info: Infos, root: Id, v: nat, o: Option<Leaf>, r: Id)
    requires Updated(ts, ts', info, root, v, o) && v < LIMIT && r in info && info[r].home == []
    ensures LeavesOf(ts', r) == if r == root then SetLeaf(LeavesOf(ts, r), v, o) else LeavesOf(ts, r)
  {
    var a, b := LeavesOf(ts, r), LeavesOf(ts', r);
    forall u: nat | u < LIMIT
      ensures u in b <==> (if r == root && u == v then o.Some? else u in a)
      ensures u in b ==> b[u] == if r == root && u == v then o.value else a[u]
    {
      assert LeafOf(ts', r, u) == if r == root && u == v then o else LeafOf(ts, r, u);
    }
  }

  lemma ViewsUpdated(ts: Tables, ts': Tables, info: Infos, mms: map<nat, Mm>, mms': map<nat, Mm>, kroot: Id, m: nat,
                     v: nat, o: Option<Leaf>)
    requires m in mms && Updated(ts, ts', info, mms[m].root, v, o) && SameMms(mms, mms') && v < LIMIT
    requires Rooted(info, mms, kroot)
    ensures Views(ts', mms', kroot) == Views(ts, mms, kroot)[m := SetLeaf(Views(ts, mms, kroot)[m], v, o)]
  {
    hide LeavesOf, Updated;
    var root := RootOf(mms, kroot, m);
    var a, b := Views(ts, mms, kroot), Views(ts', mms', kroot);
    assert a[m] == LeavesOf(ts, root);
    forall k | k in mms.Keys + {KERNEL}
      ensures b[k] == if k == m then SetLeaf(a[m], v, o) else a[k]
    {
      var r := RootOf(mms, kroot, k);
      assert RootOf(mms', kroot, k) == r by {
        assert k in mms ==> mms'[k].root == mms[k].root;
      }
      LeavesUpdated(ts, ts', info, root, v, o, r);
    }
  }

  lemma ViewsBorn(ts: Tables, ts': Tables, info: Infos, mms: map<nat, Mm>, mms': map<nat, Mm>, kroot: Id, m: nat)
    requires SameLeaves(ts, ts', info) && Rooted(info, mms, kroot) && m !in mms && m != KERNEL
    requires m in mms' && mms' == mms[m := mms'[m]]
    requires LeavesOf(ts', mms'[m].root) == LeavesOf(ts, kroot)
    ensures Views(ts', mms', kroot) == Views(ts, mms, kroot)[m := Views(ts, mms, kroot)[KERNEL]]
  {
    hide LeavesOf, SameLeaves;
    forall k | k in mms.Keys + {KERNEL}
      ensures LeavesOf(ts', RootOf(mms', kroot, k)) == LeavesOf(ts, RootOf(mms, kroot, k))
    {
      LeavesSame(ts, ts', info, RootOf(mms, kroot, k));
    }
  }

  lemma ViewsGone(ts: Tables, ts': Tables, info: Infos, mms: map<nat, Mm>, kroot: Id, m: nat)
    requires Rooted(info, mms, kroot) && m in mms
    requires forall r: Id, v: nat {:trigger LeafOf(ts', r, v)} ::
               r in info && info[r].home == [] && info[r].owner != m && v < SPACE ==>
               LeafOf(ts', r, v) == LeafOf(ts, r, v)
    ensures Views(ts', mms - {m}, kroot) == Views(ts, mms, kroot) - {m}
  {
    hide LeavesOf;
    forall k | k in (mms - {m}).Keys + {KERNEL}
      ensures LeavesOf(ts', RootOf(mms - {m}, kroot, k)) == LeavesOf(ts, RootOf(mms, kroot, k))
    {
      LeavesAlike(ts, ts', RootOf(mms, kroot, k), RootOf(mms, kroot, k));
    }
  }

  lemma LeavesAlike(ts: Tables, ts': Tables, r: Id, r': Id)
    requires forall v: nat {:trigger LeafOf(ts', r', v)} :: v < SPACE ==> LeafOf(ts', r', v) == LeafOf(ts, r, v)
    ensures LeavesOf(ts', r') == LeavesOf(ts, r)
  {
  }

  lemma LeavesSame(ts: Tables, ts': Tables, info: Infos, r: Id)
    requires SameLeaves(ts, ts', info) && r in info && info[r].home == []
    ensures LeavesOf(ts', r) == LeavesOf(ts, r)
  {
  }

  // ------------------------------------------------------------------ frames

  function ZeroPage(): (p: Page)
    ensures |p| == 4096 && forall i :: 0 <= i < 4096 ==> p[i] == 0
  {
    seq(4096, i requires 0 <= i => 0)
  }

  /** The frame allocator of inc/frame.h. */
  class FrameTable {
    var refs: map<nat, nat>
    var free: seq<nat>
    var mem: map<nat, Page>
    ghost const ram: set<nat>

    ghost predicate Valid()
      reads this
    {
      refs.Keys <= ram &&
      (forall f :: f in refs ==> refs[f] > 0) &&
      (forall f :: f in ram ==> f < LIMIT) &&
      (forall i :: 0 <= i < |free| ==> free[i] in ram && free[i] !in refs) &&
      (forall i, j :: 0 <= i < j < |free| ==> free[i] != free[j])
    }

    /** frame_alloc and frame_alloc_zero. */
    method Alloc(zero: bool) returns (r: Option<nat>)
      requires Valid()
      modifies this
      ensures Valid()
      ensures r.None? <==> old(|free|) == 0
      ensures r.None? ==> refs == old(refs) && mem == old(mem) && free == old(free)
      ensures r.Some? ==> r.value in ram && r.value !in old(refs) && refs == old(refs)[r.value := 1]
      ensures r.Some? ==> mem == old(mem)[r.value := if zero then ZeroPage() else At(old(mem), r.value)]
    {
      if |free| == 0 {
        return None;
      }
      var f := free[0];
      free := free[1..];
      refs := refs[f := 1];
      mem := mem[f := if zero then ZeroPage() else At(mem, f)];
      r := Some(f);
    }

    /** frame_retain: -1 for a page that is not a live frame. */
    method Retain(f: nat) returns (rc: int)
      requires Valid()
      modifies this
      ensures Valid() && mem == old(mem) && free == old(free)
      ensures rc == 0 ==> f < LIMIT
      ensures rc == 0 <==> f in old(refs)
      ensures refs == if rc == 0 then old(refs)[f := old(refs)[f] + 1] else old(refs)
    {
      if f !in refs {
        return -1;
      }
      refs := refs[f := refs[f] + 1];
      rc := 0;
    }

    /** frame_release: no effect on a page that is not a live frame. */
    method Release(f: nat)
      requires Valid()
      modifies this
      ensures Valid() && mem == old(mem)
      ensures refs == Released(old(refs), f) && (free == old(free) || free == old(free) + [f])
    {
      if f in refs {
        if refs[f] == 1 {
          refs := refs - {f};
          free := free + [f];
        } else {
          refs := refs[f := refs[f] - 1];
        }
      }
    }

    /** memcpy of one page. */
    method Copy(to: nat, from: nat)
      requires Valid()
      modifies this`mem
      ensures Valid() && mem == old(mem)[to := At(old(mem), from)]
    {
      mem := mem[to := At(mem, from)];
    }

    /** A one-byte store to a frame. */
    method Poke(f: nat, off: nat, b: nat)
      requires Valid() && off < |At(mem, f)|
      modifies this`mem
      ensures Valid() && mem == old(mem)[f := At(old(mem), f)[off := b]]
    {
      mem := mem[f := At(mem, f)[off := b]];
    }

    /** frame_refcount. */
    function RefCount(f: nat): nat
      reads this
    {
      if f in refs then refs[f] else 0
    }
  }

  // ------------------------------------------------------------------ kernel

  /** Kernel tables hold no owned leaf. */
  lemma KernelUnowned(st: TableStore)
    requires st.Valid()
    ensures forall v: nat :: v < LIMIT && LeafOf(st.ts, st.kroot, v).Some? ==> !LeafOf(st.ts, st.kroot, v).value.owned
  {
    forall v: nat | v < LIMIT
      ensures LeafOf(st.ts, st.kroot, v).Some? ==> !LeafOf(st.ts, st.kroot, v).value.owned
    {
      KernelWalk(st.ts, st.info, st.kroot, v);
    }
  }

  lemma {:induction false} KernelWalk(ts: Tables, info: Infos, id: Id, v: nat)
    requires Wf(ts, info) && id in ts && info[id].owner == KERNEL
    ensures var e := LeafAt(ts, id, Level(info[id]), v); e.Some? ==> !e.value.owned && !e.value.cow
    decreases Level(info[id])
  {
    var lvl := Level(info[id]);
    assert WfTable(ts, info, id);
    var e := ts[id][Idx(lvl, v)];
    assert WfEntry(info, id, Idx(lvl, v), e);
    if IsTable(lvl, e) {
      assert WfTable(ts, info, e.ppn);
      KernelWalk(ts, info, e.ppn, v);
    }
  }

  lemma BootSteady(s: State, ram: set<nat>)
    requires forall m, v :: Has(s, m, v) ==> !s.view[m][v].owned && (s.view[m][v].ppn == v || s.view[m][v].ppn !in ram)
    requires s.refs == map[] && |s.snap| == |s.cache| && KERNEL in s.view && Bounded(s)
    requires forall i :: 0 <= i < |s.cache| ==> s.cache[i].pages == [] && s.snap[i] == []
    ensures Steady(s, ram)
  {
    forall f
      ensures Counted(s, multiset{}, f)
    {
      assert Refs(s, f) == {};
    }
  }

  const IMAGE_SLOTS: nat := 8

  class Kernel {
    const st: TableStore
    const ft: FrameTable
    var cache: seq<Image>
    var cacheBytes: nat
    var generation: nat
    ghost var view: View
    ghost var shm: set<nat>
    ghost var snap: seq<seq<Page>>

    /** The sharing state. */
    ghost function S(): State
      reads this, ft
    {
      State(view, cache, ft.refs, ft.mem, shm, snap)
    }

    ghost predicate Valid()
      reads this, st, ft
    {
      st.Valid() && ft.Valid() && st.region !! ft.ram && view == Views(st.ts, st.mms, st.kroot)
    }

    constructor (st: TableStore, ft: FrameTable)
      requires st.Valid() && ft.Valid() && st.region !! ft.ram && st.mms == map[] && ft.refs == map[]
      requires forall v: nat :: v < LIMIT ==>
                 match LeafOf(st.ts, st.kroot, v) case None => true case Some(l) => l.ppn == v || l.ppn !in ft.ram
      ensures this.st == st && this.ft == ft && Valid() && Steady(S(), ft.ram)
    {
      this.st, this.ft := st, ft;
      view := Views(st.ts, st.mms, st.kroot);
      cache := seq(IMAGE_SLOTS, i => NO_IMAGE);
      cacheBytes, generation := 0, 0;
      shm := {};
      snap := seq(IMAGE_SLOTS, i => []);
      new;
      RootsOk(st);
      KernelUnowned(st);
      BootSteady(S(), ft.ram);
    }

    /** mm_alloc, before the user window is demoted: the new address space sees the
        kernel's leaves. */
    method NewMm(m: nat) returns (ok: bool)
      requires Valid() && m !in st.mms && m != KERNEL
      modifies this`view, st
      ensures Valid() && KERNEL in old(view)
      ensures if ok then m in st.mms && st.mms[m].refcount == 1 && st.mms == old(st.mms)[m := st.mms[m]] &&
              S() == Born(old(S()), m)
              else st.mms == old(st.mms) && S() == old(S())
      ensures ok <==> old(|st.heap|) > 0
    {
      hide TablesOk, LeavesOf;
      ghost var ts0, info0, mms0 := st.ts, st.info, st.mms;
      RootsOk(st);
      ok := st.NewMm(m);
      if ok {
        LeavesAlike(ts0, st.ts, st.kroot, st.mms[m].root);
        ViewsBorn(ts0, st.ts, info0, mms0, st.mms, st.kroot, m);
      }
      view := Views(st.ts, st.mms, st.kroot);
    }

    method OneUserLess(m: nat)
      requires Valid() && m in st.mms && st.mms[m].refcount > 0
      modifies st`mms
      ensures Valid() && st.mms == old(st.mms)[m := old(st.mms[m]).(refcount := old(st.mms[m].refcount) - 1)]
    {
      hide LeavesOf, Wf, HeapOk;
      ghost var mms0 := st.mms;
      var mm := st.mms[m].(refcount := st.mms[m].refcount - 1);
      assert forall k {:trigger MmOk(st.ts, st.info, k, mms0[k])} :: k in mms0 ==> MmOk(st.ts, st.info, k, mms0[k]);
      st.mms := st.mms[m := mm];
      assert MmOk(st.ts, st.info, m, mms0[m]);
      forall k | k in st.mms
        ensures MmOk(st.ts, st.info, k, st.mms[k])
      {
        assert MmOk(st.ts, st.info, k, mms0[k]);
      }
      forall k | k in mms0.Keys + {KERNEL}
        ensures RootOf(st.mms, st.kroot, k) == RootOf(mms0, st.kroot, k)
      {
      }
    }

    /** Free the tables of an address space and forget it. */
    method FreeMm(m: nat)
      requires Valid() && m in st.mms
      modifies this`view, st
      ensures Valid() && view == old(view) - {m} && st.mms == old(st.mms) - {m}
    {
      hide TablesOk, LeavesOf;
      ghost var ts0, info0, mms0 := st.ts, st.info, st.mms;
      RootsOk(st);
      st.FreeMm(m);
      ViewsGone(ts0, st.ts, info0, mms0, st.kroot, m);
      view := Views(st.ts, st.mms, st.kroot);
    }

    /** The table half of mm_map_user_page; was is the entry it replaced. */
    method StoreUserLeaf(m: nat, v: nat, ppn: nat, flags: Entry) returns (rc: int, was: Entry)
      requires Valid() && m in st.mms && v < LIMIT && (flags.owned ==> ppn < LIMIT)
      modifies this`view, st
      ensures Valid() && SameMms(old(st.mms), st.mms) && m in old(view)
      ensures rc in {0, -3, -5, -6, -7, -9, -10, -11, -13} && (rc != 0 ==> |st.heap| == 0)
      ensures rc != 0 ==> view == old(view)
      ensures rc == 0 ==> view == old(view)[m := SetLeaf(old(view[m]), v,
                                                         Some(Leaf(ppn, flags.rw, flags.cow, flags.owned)))]
      ensures rc == 0 ==> old(LeafIn(S(), m, v)) == (if was.present
                                                     then Some(Leaf(was.ppn, was.rw, was.cow, was.owned)) else None)
      ensures rc == 0 ==> (was.owned ==> was.present)
      ensures rc == 0 ==> LeafAt(st.ts, st.mms[m].root, 4, v) == Some(UserLeaf(ppn, flags)) &&
                          PathAllows(st.ts, st.mms[m].root, 4, v, flags.rw)
    {
      hide TablesOk, Views;
      ghost var ts0, info0, mms0 := st.ts, st.info, st.mms;
      RootsOk(st);
      LeafInView(st, m, v);
      rc, was := MapLeaf(st, m, v, ppn, flags);
      if rc != 0 {
        ViewsSame(ts0, st.ts, info0, mms0, st.mms, st.kroot);
      } else {
        ViewsUpdated(ts0, st.ts, info0, mms0, st.mms, st.kroot, m, v,
                     Some(Leaf(ppn, flags.rw, flags.cow, flags.owned)));
      }
      view := Views(st.ts, st.mms, st.kroot);
    }

    /** mm_map_user_page: one 4 KiB page. */
    method MapUserPage(m: nat, v: nat, ppn: nat, flags: Entry) returns (rc: int)
      requires Valid()
      modifies this`view, st, ft
      ensures Valid() && SameMms(old(st.mms), st.mms)
      ensures rc == -1 <==> m !in old(st.mms)
      ensures rc == -2 <==> m in old(st.mms) && (v >= LIMIT || ppn >= 0x100_0000_0000 || (flags.owned && ppn >= LIMIT))
      ensures rc in {0, -1, -2, -3, -5, -6, -7, -9, -10, -11, -13} && (rc !in {0, -1, -2} ==> |st.heap| == 0)
      ensures rc != 0 ==> S() == old(S())
      ensures rc == 0 ==> m in old(S().view) && S() == Remap(old(S()), m, v,
                Leaf(ppn, flags.rw, flags.cow, flags.owned))
      ensures rc == 0 ==> LeafAt(st.ts, st.mms[m].root, 4, v) == Some(UserLeaf(ppn, flags)) &&
                          PathAllows(st.ts, st.mms[m].root, 4, v, flags.rw)
    {
      hide TablesOk, Views;
      if m !in st.mms {
        return -1;
      }
      if v >= LIMIT || ppn >= 0x100_0000_0000 || (flags.owned && ppn >= LIMIT) {
        return -2;
      }
      var was;
      rc, was := StoreUserLeaf(m, v, ppn, flags);
      if rc == 0 && was.owned && was.ppn != ppn {
        ft.Release(was.ppn);
      }
    }

    /** mm_map_user_page for a page below 4 GiB of an existing address space. */
    method MapPage(m: nat, v: nat, ppn: nat, flags: Entry) returns (ok: bool)
      requires Valid() && m in st.mms && m in view && v < LIMIT && ppn < 0x100_0000_0000
      requires (flags.owned ==> ppn < LIMIT)
      modifies this`view, st, ft
      ensures Valid() && SameMms(old(st.mms), st.mms) && st.mms.Keys == old(st.mms.Keys)
      ensures S() == if ok then Remap(old(S()), m, v, Leaf(ppn, flags.rw, flags.cow, flags.owned)) else old(S())
      ensures !ok ==> |st.heap| == 0
    {
      hide TablesOk, Views, Remap;
      var rc := MapUserPage(m, v, ppn, flags);
      ok := rc == 0;
    }

    /** mm_map_4k_sharedaware against the kernel's tables. */
    method MapShared(m: nat, v: nat, ppn: nat, flags: Entry) returns (rc: int)
      requires Valid() && (flags.owned ==> ppn < LIMIT) && (flags.owned || flags.cow ==> flags.us)
      modifies this`view, st
      ensures Valid() && SameMms(old(st.mms), st.mms)
      ensures rc == 0 || rc == -1
      ensures rc != 0 ==> view == old(view)
      ensures rc != 0 && m in old(st.mms) ==> v >= LIMIT || |st.heap| == 0 || !Has(S(), m, v) || !Has(S(), KERNEL, v)
      ensures rc == 0 ==> m in st.mms && m in old(view) && v < LIMIT &&
                          view == old(view)[m := SetLeaf(old(view[m]), v, Some(Leaf(ppn, flags.rw &&
                              !flags.cow, flags.cow, flags.owned)))]
      ensures rc == 0 ==> LeafAt(st.ts, st.mms[m].root, 4, v) == Some(SharedAwareLeaf(v, ppn, flags))
      ensures rc == 0 && (flags.us || UserWindow(v)) ==> PathAllows(st.ts, st.mms[m].root, 4, v, flags.rw && !flags.cow)
    {
      SharedAwareIs(v, ppn, flags);
      hide TablesOk, Views, ShareEntry, LeafAt, PathAllows, SharedAwareLeaf, SameLeaves, Updated, Extends;
      if m !in st.mms {
        return -1;
      }
      ghost var ts0, info0, mms0 := st.ts, st.info, st.mms;
      RootsOk(st);
      LeafInView(st, m, 0);
      if v < LIMIT {
        LeafInView(st, m, v);
        KernelShown(st, v);
      }
      rc := MapSharedAware(st, m, v, ppn, flags);
      if rc != 0 {
        ViewsSame(ts0, st.ts, info0, mms0, st.mms, st.kroot);
        if v < LIMIT { LeafInView(st, m, v); }
      } else {
        ViewsUpdated(ts0, st.ts, info0, mms0, st.mms, st.kroot, m, v,
                     Some(Leaf(ppn, flags.rw && !flags.cow, flags.cow, flags.owned)));
      }
      view := Views(st.ts, st.mms, st.kroot);
    }

    /** mm_mark_share_user_readonly_page on m's own tables, at a page no huge leaf covers:
        an owned leaf becomes read-only and SOFT_COW, any other stays. */
    method ProtectLeaf(m: nat, v: nat)
      requires Valid() && m in st.mms && v < LIMIT && !HugeAt(st.ts, st.mms[m].root, 4, v)
      modifies this`view, st`ts
      ensures Valid()
      ensures S() == Protect(old(S()), m, v)
    {
      hide TablesOk, Views;
      ghost var ts0 := st.ts;
      RootsOk(st);
      LeafInView(st, m, v);
      var done := ProtectEntry(st, m, v);
      if done {
        ghost var l := LeafOf(ts0, st.mms[m].root, v).value;
        ViewsUpdated(ts0, st.ts, st.info, st.mms, st.mms, st.kroot, m, v, Some(l.(rw := false, cow := true)));
      }
      view := Views(st.ts, st.mms, st.kroot);
    }

  }

  lemma SharedAwareIs(v: nat, ppn: nat, flags: Entry)
    ensures var e := SharedAwareLeaf(v, ppn, flags);
            Abs(Some(e)) == Some(Leaf(ppn, flags.rw && !flags.cow, flags.cow, flags.owned)) &&
            (flags.us || UserWindow(v) ==> e.us)
  {
  }

  /** Where the kernel maps a page, its tables lead there. */
  lemma KernelShown(st: TableStore, v: nat)
    requires st.Valid() && v < LIMIT
    ensures var view := Views(st.ts, st.mms, st.kroot);
            KERNEL in view && (v in view[KERNEL] ==> ShareEntry(st.ts, st.kroot, 4, v).present &&
                                                     ShareEntry(st.ts, st.kroot, 3, v).present)
  {
    assert RootOf(st.mms, st.kroot, KERNEL) == st.kroot;
    if LeafAt(st.ts, st.kroot, 4, v).Some? { WalkShown(st.ts, st.info, st.kroot, v); }
  }

  lemma WalkShown(ts: Tables, info: Infos, kroot: Id, v: nat)
    requires Wf(ts, info) && kroot in ts && info[kroot].home == [] && LeafAt(ts, kroot, 4, v).Some?
    ensures ShareEntry(ts, kroot, 4, v).present && ShareEntry(ts, kroot, 3, v).present
  {
    assert KernelTable(ts, kroot, 4, v) == Some(kroot);
    assert WfTable(ts, info, kroot);
    var e := ts[kroot][Idx(4, v)];
    assert WfEntry(info, kroot, Idx(4, v), e);
    assert IsTable(4, e) && LeafAt(ts, e.ppn, 3, v).Some?;
    assert KernelTable(ts, kroot, 3, v) == Some(e.ppn);
  }

  lemma LeafInView(st: TableStore, m: nat, v: nat)
    requires st.Valid() && m in st.mms && v < LIMIT
    ensures var view := Views(st.ts, st.mms, st.kroot);
            m in view && LeafOf(st.ts, st.mms[m].root, v) == if v in view[m] then Some(view[m][v]) else None
  {
    RootsOk(st);
    assert RootOf(st.mms, st.kroot, m) == st.mms[m].root;
  }
}
