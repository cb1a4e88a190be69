/**
mm_release: the walk that gives up the reference of every owned leaf of a dying
address space, then frees its tables.
*/
module MmRelease {
  import Modular
  import opened PageTables
  import opened MmTables
  import opened MmPaths
  import opened FrameSharing
  import opened MmLifecycle
  import opened AddressSpaces

  /** How many pages one table of this level covers. */
  function Cover(lvl: nat): nat {
    if lvl == 0 then 1 else if lvl == 1 then 512 else if lvl == 2 then 0x4_0000 else if lvl == 3 then 0x800_0000
        else SPACE
  }

  lemma EntryOf(lvl: nat, base: nat, i: nat, u: nat)
    requires 1 <= lvl <= 4 && i < 512 && base % Cover(lvl) == 0
    requires base + i * Cover(lvl - 1) <= u < base + (i + 1) * Cover(lvl - 1)
    ensures Idx(lvl, u) == i && (base + i * Cover(lvl - 1)) % Cover(lvl - 1) == 0
  {
    var c := Cover(lvl - 1);
    var q := base / Cover(lvl);
    assert Cover(lvl) == 512 * c;
    assert base == q * (512 * c);
    AtEntry(c, q, i, u);
  }

  lemma AtEntry(c: nat, q: nat, i: nat, u: nat)
    requires c > 0 && i < 512 && q * (512 * c) + i * c <= u < q * (512 * c) + (i + 1) * c
    ensures u / c % 512 == i && (q * (512 * c) + i * c) % c == 0
  {
    var a := q * 512 + i;
    assert q * (512 * c) == q * 512 * c;
    assert a * c == q * 512 * c + i * c;
    assert (i + 1) * c == i * c + c;
    var r := u - a * c;
    assert u == a * c + r && 0 <= r < c;
    Modular.DivModUnique(u, a, r, c);
    Modular.DivModUnique(a * c, a, 0, c);
    Modular.DivModUnique(a, q, i, 512);
  }

  function Below(lv: map<nat, Leaf>, x: nat): set<nat> { set v | v in lv && v < x }

  /** Pages without an owned leaf change no count. */
  lemma LessenSkip(refs: map<nat, nat>, lv: map<nat, Leaf>, m: nat, x: nat, y: nat)
    requires x <= y && forall v :: v in lv && x <= v < y ==> !lv[v].owned
    ensures Lessen(refs, lv, m, Below(lv, y)) == Lessen(refs, lv, m, Below(lv, x))
  {
    forall f
      ensures Lost(lv, m, Below(lv, y), f) == Lost(lv, m, Below(lv, x), f)
    {
    }
  }

  lemma LessenNext(refs: map<nat, nat>, lv: map<nat, Leaf>, m: nat, v: nat)
    requires v in lv && lv[v].owned
    ensures Lessen(refs, lv, m, Below(lv, v + 1)) == Released(Lessen(refs, lv, m, Below(lv, v)), lv[v].ppn)
  {
    assert Below(lv, v + 1) == Below(lv, v) + {v};
    LessenOne(refs, lv, m, Below(lv, v), v);
  }

  /** Table id of this level answers for the pages from base on. */
  ghost predicate Covers(st: TableStore, m: nat, id: Id, lvl: nat, base: nat)
    reads st
    requires 1 <= lvl <= 4 && m in st.mms
  {
    base % Cover(lvl) == 0 && base + Cover(lvl) <= SPACE &&
    (forall u: nat {:trigger MetAt(st, m, id, lvl, u)} :: base <= u < base + Cover(lvl) ==> MetAt(st, m, id, lvl, u)) &&
    (forall u: nat {:trigger LeafAt(st.ts, id, lvl, u)} :: base <= u < base + Cover(lvl) ==>
      LeafAt(st.ts, st.mms[m].root, 4, u) == LeafAt(st.ts, id, lvl, u))
  }

  ghost predicate MetAt(st: TableStore, m: nat, id: Id, lvl: nat, u: nat)
    reads st
    requires 1 <= lvl <= 4
  {
    Met(st.ts, st.info, m, id, u, 4 - lvl)
  }

  /** The pages under entry i. */
  lemma UnderEntry(st: TableStore, m: nat, id: Id, lvl: nat, base: nat, i: nat, u: nat)
    requires st.Valid() && m in st.mms && 1 <= lvl <= 4 && Covers(st, m, id, lvl, base) && i < 512
    requires base + i * Cover(lvl - 1) <= u < base + (i + 1) * Cover(lvl - 1)
    ensures base <= u < base + Cover(lvl) && Idx(lvl, u) == i && Met(st.ts, st.info, m, id, u, 4 - lvl)
    ensures LeafAt(st.ts, st.mms[m].root, 4, u) == LeafAt(st.ts, id, lvl, u)
  {
    EntryOf(lvl, base, i, u);
    Fits(lvl, i);
    assert MetAt(st, m, id, lvl, u);
    assert LeafAt(st.ts, id, lvl, u) == LeafAt(st.ts, id, lvl, u);
  }

  lemma Fits(lvl: nat, i: nat)
    requires 1 <= lvl <= 4 && i < 512
    ensures i * Cover(lvl - 1) + Cover(lvl - 1) == (i + 1) * Cover(lvl - 1) <= Cover(lvl)
  {
    assert Cover(lvl) == 512 * Cover(lvl - 1);
  }

  lemma ChildCovers(st: TableStore, m: nat, id: Id, lvl: nat, base: nat, i: nat)
    requires st.Valid() && m in st.mms && 2 <= lvl <= 4 && Covers(st, m, id, lvl, base) && i < 512
    requires id in st.ts && |st.ts[id]| == 512 && IsTable(lvl, st.ts[id][i])
    ensures Covers(st, m, st.ts[id][i].ppn, lvl - 1, base + i * Cover(lvl - 1))
  {
    var l: nat := lvl - 1;
    var cb, c := base + i * Cover(l), st.ts[id][i].ppn;
    Fits(lvl, i);
    EntryOf(lvl, base, i, cb);
    forall u: nat | cb <= u < cb + Cover(l)
      ensures MetAt(st, m, c, l, u) && LeafAt(st.ts, st.mms[m].root, 4, u) == LeafAt(st.ts, c, l, u)
    {
      UnderEntry(st, m, id, lvl, base, i, u);
      MetNext(st.ts, st.info, m, id, lvl, u);
    }
    assert Covers(st, m, c, l, cb);
  }

  /** Nothing owned under an absent or huge entry. */
  lemma NothingOwned(st: TableStore, m: nat, lv: map<nat, Leaf>, id: Id, lvl: nat, base: nat, i: nat, u: nat)
    requires st.Valid() && m in st.mms && 2 <= lvl <= 4 && Covers(st, m, id, lvl, base) && i < 512
    requires id in st.ts && |st.ts[id]| == 512 && !IsTable(lvl, st.ts[id][i]) && lv == LeavesOf(st.ts, st.mms[m].root)
    requires base + i * Cover(lvl - 1) <= u < base + (i + 1) * Cover(lvl - 1) && u in lv
    ensures !lv[u].owned
  {
    UnderEntry(st, m, id, lvl, base, i, u);
    assert WfTable(st.ts, st.info, id);
    assert WfEntry(st.info, id, i, st.ts[id][i]);
  }

  /** The leaf in entry i of a last-level table. */
  lemma LastEntry(st: TableStore, m: nat, lv: map<nat, Leaf>, id: Id, base: nat, i: nat)
    requires st.Valid() && m in st.mms && Covers(st, m, id, 1, base) && i < 512 && lv == LeavesOf(st.ts, st.mms[m].root)
    requires id in st.ts && |st.ts[id]| == 512
    ensures var e := st.ts[id][i];
            if e.present && e.us && e.owned then base + i in lv && lv[base + i].owned && lv[base + i].ppn == e.ppn
            else base + i in lv ==> !lv[base + i].owned
  {
    var v := base + i;
    assert Cover(0) == 1 && i * Cover(0) == i && (i + 1) * Cover(0) == i + 1;
    UnderEntry(st, m, id, 1, base, i, v);
    assert WfTable(st.ts, st.info, id);
    var e := st.ts[id][i];
    assert WfEntry(st.info, id, i, e);
    if e.owned {
      LowHome(v);
    }
  }

  lemma LowHome(v: nat)
    requires v < SPACE && InWindow(Path(v, 3), Idx(1, v))
    ensures v < LIMIT
  {
    assert Path(v, 1)[0] == Idx(4, v);
    assert Path(v, 2)[0] == Idx(4, v) && Path(v, 2)[1] == Idx(3, v);
    assert Path(v, 3)[0] == Idx(4, v) && Path(v, 3)[1] == Idx(3, v);
    Recompose(v);
  }

  /** The innermost loop: one last-level table. */
  method ReleaseLast(k: Kernel, m: nat, id: Id, base: nat, ghost lv: map<nat, Leaf>, ghost refs0: map<nat, nat>)
    requires k.Valid() && m in k.st.mms && Covers(k.st, m, id, 1, base) && id in k.st.ts && |k.st.ts[id]| == 512
    requires lv == LeavesOf(k.st.ts, k.st.mms[m].root) && k.ft.refs == Lessen(refs0, lv, m, Below(lv, base))
    requires forall v :: v in lv && lv[v].owned ==> lv[v].ppn !in k.st.mms[m].allocs
    modifies k.ft
    ensures k.Valid() && k.ft.mem == old(k.ft.mem) && k.ft.refs == Lessen(refs0, lv, m, Below(lv, base + 512))
  {
    hide TableStore.Valid, FrameTable.Valid, Views, LeavesOf, Covers, Lessen, Below, Released;
    var i := 0;
    while i < 512
      invariant i <= 512 && k.Valid() && k.ft.mem == old(k.ft.mem)
      invariant k.ft.refs == Lessen(refs0, lv, m, Below(lv, base + i))
    {
      var e := k.st.ts[id][i];
      LastEntry(k.st, m, lv, id, base, i);
      if e.present && e.us && e.owned {
        LessenNext(refs0, lv, m, base + i);
        assert e.ppn !in k.st.mms[m].allocs; // mm_owns_pt_page never holds here
        k.ft.Release(e.ppn);
      } else {
        LessenSkip(refs0, lv, m, base + i, base + i + 1);
      }
      i := i + 1;
    }
  }

  /** mm_release_user_frames: the nested loops over the tables, one level per call. */
  method ReleaseFrames(k: Kernel, m: nat, id: Id, lvl: nat, base: nat, ghost lv: map<nat, Leaf>,
                       ghost refs0: map<nat, nat>)
    requires k.Valid() && m in k.st.mms && 1 <= lvl <= 4 && Covers(k.st, m, id, lvl, base) && id in k.st.ts
    requires |k.st.ts[id]| == 512
    requires lv == LeavesOf(k.st.ts, k.st.mms[m].root) && k.ft.refs == Lessen(refs0, lv, m, Below(lv, base))
    requires forall v :: v in lv && lv[v].owned ==> lv[v].ppn !in k.st.mms[m].allocs
    modifies k.ft
    ensures k.Valid() && k.ft.mem == old(k.ft.mem) && k.ft.refs == Lessen(refs0, lv, m, Below(lv, base + Cover(lvl)))
    decreases lvl
  {
    hide TableStore.Valid, FrameTable.Valid, Views, LeavesOf, Covers, Lessen, Below, Released;
    if lvl == 1 {
      ReleaseLast(k, m, id, base, lv, refs0);
      return;
    }
    var i := 0;
    while i < 512
      invariant i <= 512 && k.Valid() && k.ft.mem == old(k.ft.mem)
      invariant k.ft.refs == Lessen(refs0, lv, m, Below(lv, base + i * Cover(lvl - 1)))
    {
      var e := k.st.ts[id][i];
      Fits(lvl, i);
      if !e.present || (e.ps && lvl < 4) {
        forall u | u in lv && base + i * Cover(lvl - 1) <= u < base + (i + 1) * Cover(lvl - 1)
          ensures !lv[u].owned
        {
          NothingOwned(k.st, m, lv, id, lvl, base, i, u);
        }
        LessenSkip(refs0, lv, m, base + i * Cover(lvl - 1), base + (i + 1) * Cover(lvl - 1));
      } else {
        ChildCovers(k.st, m, id, lvl, base, i);
        ChildIn(k.st, m, id, lvl, base, i);
        ReleaseFrames(k, m, e.ppn, lvl - 1, base + i * Cover(lvl - 1), lv, refs0);
      }
      i := i + 1;
    }
    assert 512 * Cover(lvl - 1) == Cover(lvl);
  }

  lemma ChildIn(st: TableStore, m: nat, id: Id, lvl: nat, base: nat, i: nat)
    requires st.Valid() && m in st.mms && 2 <= lvl <= 4 && Covers(st, m, id, lvl, base) && i < 512
    requires id in st.ts && |st.ts[id]| == 512 && IsTable(lvl, st.ts[id][i])
    ensures st.ts[id][i].ppn in st.ts && |st.ts[st.ts[id][i].ppn]| == 512
  {
    assert MetAt(st, m, id, lvl, base);
    assert WfTable(st.ts, st.info, id);
    assert WfEntry(st.info, id, i, st.ts[id][i]);
  }

  /** No table page of m is a frame that m maps. */
  lemma TablesAreNotFrames(k: Kernel, m: nat)
    requires k.Valid() && Steady(k.S(), k.ft.ram) && m in k.st.mms && m in k.view
    ensures forall v :: v in k.view[m] && k.view[m][v].owned ==> k.view[m][v].ppn !in k.st.mms[m].allocs
  {
    assert MmOk(k.st.ts, k.st.info, m, k.st.mms[m]);
    forall v | v in k.view[m] && k.view[m][v].owned
      ensures k.view[m][v].ppn !in k.st.mms[m].allocs
    {
      OwnedLive(k.S(), k.ft.ram, m, v);
    }
  }

  lemma RootCovers(st: TableStore, m: nat)
    requires st.Valid() && m in st.mms
    ensures Covers(st, m, st.mms[m].root, 4, 0) && st.mms[m].root in st.ts && |st.ts[st.mms[m].root]| == 512
  {
    assert MmOk(st.ts, st.info, m, st.mms[m]);
  }

  lemma ViewOf(k: Kernel, m: nat)
    requires k.Valid() && m in k.st.mms
    ensures m in k.view && m != KERNEL && k.view[m] == LeavesOf(k.st.ts, k.st.mms[m].root)
  {
    RootsOk(k.st);
    assert RootOf(k.st.mms, k.st.kroot, m) == k.st.mms[m].root;
  }

  /** mm_release: one reference less; with the last one every owned leaf gives up its
      frame and the address space is gone. */
  method Release(k: Kernel, m: nat)
    requires k.Valid() && Steady(k.S(), k.ft.ram)
    modifies k`view, k.st, k.ft
    ensures k.Valid()
    ensures m !in old(k.st.mms) || old(k.st.mms[m].refcount) == 0 ==> k.S() == old(k.S()) && k.st.mms == old(k.st.mms)
    ensures m in old(k.st.mms) && old(k.st.mms[m].refcount) > 1 ==>
              k.S() == old(k.S()) &&
                  k.st.mms == old(k.st.mms)[m := old(k.st.mms[m]).(refcount := old(k.st.mms[m].refcount) - 1)]
    ensures m in old(k.st.mms) && old(k.st.mms[m].refcount) == 1 ==>
              m in old(k.view) && m != KERNEL && k.S() == Death(old(k.S()), m) && k.st.mms == old(k.st.mms) - {m}
    ensures Steady(k.S(), k.ft.ram)
  {
    if m !in k.st.mms || k.st.mms[m].refcount == 0 {
      return;
    }
    if k.st.mms[m].refcount > 1 {
      k.OneUserLess(m);
      return;
    }
    ReleaseLastUser(k, m);
  }

  method ReleaseLastUser(k: Kernel, m: nat)
    requires k.Valid() && Steady(k.S(), k.ft.ram) && m in k.st.mms
    modifies k`view, k.st, k.ft
    ensures k.Valid() && m in old(k.view) && m != KERNEL && k.S() == Death(old(k.S()), m)
    ensures k.st.mms == old(k.st.mms) - {m}
    ensures Steady(k.S(), k.ft.ram)
  {
    hide TableStore.Valid, FrameTable.Valid, Views, LeavesOf, Covers, Steady, Below, Lessen, Death;
    ghost var s0 := k.S();
    ViewOf(k, m);
    TablesAreNotFrames(k, m);
    RootCovers(k.st, m);
    ghost var lv := k.view[m];
    LessenNone(k, lv, m);
    var root := k.st.mms[m].root;
    ReleaseFrames(k, m, root, 4, 0, lv, s0.refs);
    AllBelow(k, m, lv);
    k.FreeMm(m);
    DeathIs(s0, m, k.S());
    DeathSteady(s0, k.ft.ram, m);
  }

  lemma LessenNone(k: Kernel, lv: map<nat, Leaf>, m: nat)
    requires k.Valid()
    ensures k.ft.refs == Lessen(k.ft.refs, lv, m, Below(lv, 0))
  {
    assert forall f :: Lost(lv, m, Below(lv, 0), f) == {};
  }

  lemma DeathIs(s: State, m: nat, s': State)
    requires m in s.view && s'.view == s.view - {m} && s'.refs == Lessen(s.refs, s.view[m], m, s.view[m].Keys)
    requires s' == s.(view := s'.view, refs := s'.refs)
    ensures s' == Death(s, m)
  {
  }

  lemma AllBelow(k: Kernel, m: nat, lv: map<nat, Leaf>)
    requires k.Valid() && m in k.st.mms && lv == LeavesOf(k.st.ts, k.st.mms[m].root)
    ensures Below(lv, 0 + Cover(4)) == lv.Keys
  {
  }
}
