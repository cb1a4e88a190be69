/**
Privatizing the table path to one page, and the routines built on it: installing
a leaf (mm_map_user_page, mm_map_4k_sharedaware) and clearing leaves.
*/
module MmPaths {
  import opened Basics
  import opened PageTables
  import opened MmTables

  /** The entry names a kernel table: give m its own copy. */
  method Unshare(st: TableStore, m: nat, id: Id, lvl: nat, v: nat) returns (ok: bool, c: Id)
    requires st.Valid() && m in st.mms && 2 <= lvl <= 4 && Own(st.info, m, id, v, 4 - lvl)
    requires IsTable(lvl, st.ts[id][Idx(lvl, v)])
    modifies st
    ensures st.Valid() && Extends(old(st.info), st.info) && SameMms(old(st.mms), st.mms)
    ensures SameLeaves(old(st.ts), st.ts, old(st.info)) && OffPath(old(st.ts), st.ts, old(st.info), m, v)
    ensures ok ==> c in st.ts && Own(st.info, m, c, v, 5 - lvl)
    ensures ok ==>
              id in st.ts && |st.ts[id]| == 512 && IsTable(lvl, st.ts[id][Idx(lvl, v)]) &&
              st.ts[id][Idx(lvl, v)].ppn == c
    ensures !ok ==> |st.heap| == 0
    ensures old(st.ts[id][Idx(lvl, v)].ppn in st.mms[m].allocs) ==>
              ok && c == old(st.ts[id][Idx(lvl, v)].ppn) && st.ts == old(st.ts) && st.mms == old(st.mms) &&
                  st.heap == old(st.heap) && st.info == old(st.info)
  {
    assert MmOk(st.ts, st.info, m, st.mms[m]);
    NextTable(st.ts, st.info, m, st.mms[m], id, lvl, v);
    SharedIff(st.ts, st.info, st.kroot, m, id, lvl, v);
    PathSnoc(v, st.info[id].home);
    var i := Idx(lvl, v);
    c := st.ts[id][i].ppn;
    ok := true;
    if SameTable(st.ts[id][i], ShareEntry(st.ts, st.kroot, lvl, v)) {
      ok, c := st.LinkDup(m, id, i);
      if ok {
        OffPathStep(old(st.ts), st.ts, old(st.info), m, v, id, lvl);
      }
    }
  }

  /** The path to v is m's own down to a last-level table or a 2 MiB leaf, so that
      privatizing it again needs no page. */
  ghost predicate Ready(ts: Tables, info: Infos, kroot: Id, m: nat, v: nat) {
    ShareEntry(ts, kroot, 4, v).present &&
    exists id: Id {:trigger Own(info, m, id, v, 2)} :: Own(info, m, id, v, 2) && PrivateBelow(ts, info, m, id, v)
  }

  ghost predicate PrivateBelow(ts: Tables, info: Infos, m: nat, id: Id, v: nat) {
    id in ts && |ts[id]| == 512 &&
    var e := ts[id][Idx(2, v)];
    e.present && (e.ps || (e.ppn in info && info[e.ppn].owner == m))
  }

  /** The walk for v passes two tables below the root, both m's own. */
  ghost predicate OwnChain(ts: Tables, mm: Mm, v: nat) {
    mm.root in ts && |ts[mm.root]| == 512 &&
    var e4 := ts[mm.root][Idx(4, v)];
    IsTable(4, e4) && e4.ppn in mm.allocs && e4.ppn in ts && |ts[e4.ppn]| == 512 &&
    var e3 := ts[e4.ppn][Idx(3, v)];
    IsTable(3, e3) && e3.ppn in mm.allocs
  }

  ghost function ChainEnd(ts: Tables, mm: Mm, v: nat): Id
    requires OwnChain(ts, mm, v)
  {
    ts[ts[mm.root][Idx(4, v)].ppn][Idx(3, v)].ppn
  }

  /** The tables above m's own level-2 table on the path to v. */
  lemma ReadyChain(ts: Tables, info: Infos, m: nat, mm: Mm, id: Id, v: nat)
    requires Wf(ts, info) && MmOk(ts, info, m, mm) && Own(info, m, id, v, 2)
    ensures OwnChain(ts, mm, v) && ChainEnd(ts, mm, v) == id
  {
    assert WfTable(ts, info, id);
    var l3 := info[id].parent;
    assert info[id].home == Path(v, 1) + [Idx(3, v)] by { PathSnoc(v, Path(v, 1)); }
    assert info[id].home[..1] == Path(v, 1);
    assert WfTable(ts, info, l3);
    assert info[l3].home == Path(v, 0) + [Idx(4, v)] by { PathSnoc(v, Path(v, 0)); }
    assert info[l3].home[..0] == [];
    assert SamePlace(info, info[l3].parent, mm.root);
  }

  lemma ReadyIs(ts: Tables, info: Infos, kroot: Id, m: nat, mm: Mm, v: nat)
    requires Wf(ts, info) && MmOk(ts, info, m, mm) && Ready(ts, info, kroot, m, v)
    ensures OwnChain(ts, mm, v)
    ensures var l2 := ChainEnd(ts, mm, v);
            l2 in ts && |ts[l2]| == 512 &&
            var e := ts[l2][Idx(2, v)]; IsHuge(2, e) || (IsTable(2, e) && e.ppn in mm.allocs)
  {
    var id: Id :| Own(info, m, id, v, 2) && PrivateBelow(ts, info, m, id, v);
    ReadyChain(ts, info, m, mm, id, v);
    NextTable(ts, info, m, mm, id, 2, v);
  }

  /** Level 3 of the path: split a 1 GiB leaf, then unshare the level-2 table. */
  method PrivateMiddle(st: TableStore, m: nat, l3: Id, v: nat) returns (ok: bool, l2: Id)
    requires st.Valid() && m in st.mms && Own(st.info, m, l3, v, 1)
    modifies st
    ensures st.Valid() && Extends(old(st.info), st.info) && SameMms(old(st.mms), st.mms)
    ensures SameLeaves(old(st.ts), st.ts, old(st.info)) && OffPath(old(st.ts), st.ts, old(st.info), m, v)
    ensures ok ==> l2 in st.ts && |st.ts[l2]| == 512 && Own(st.info, m, l2, v, 2)
    ensures !ok ==> |st.heap| == 0 || LeafAt(st.ts, l3, 3, v) == None
    ensures old(var e := st.ts[l3][Idx(3, v)]; IsTable(3, e) && e.ppn in st.mms[m].allocs) ==>
              ok && l2 == old(st.ts[l3][Idx(3, v)].ppn) && st.ts == old(st.ts) && st.mms == old(st.mms) &&
                  st.info == old(st.info)
  {
    l2 := 0;
    assert MmOk(st.ts, st.info, m, st.mms[m]);
    NextTable(st.ts, st.info, m, st.mms[m], l3, 3, v);
    if !st.ts[l3][Idx(3, v)].present {
      return false, l2;
    }
    ok := st.BreakHuge(m, l3, 3, v);
    if !ok {
      return;
    }
    ghost var ts1, info1 := st.ts, st.info;
    ok, l2 := Unshare(st, m, l3, 3, v);
    SameLeavesTrans(old(st.ts), ts1, st.ts, old(st.info), info1);
    OffPathTrans(old(st.ts), ts1, st.ts, old(st.info), info1, m, v);
  }

  /** Level 2 of the path: a 2 MiB leaf stays, a shared last-level table is copied. */
  method PrivateLast(st: TableStore, m: nat, l2: Id, v: nat) returns (rc: int, l1: Option<Id>)
    requires st.Valid() && m in st.mms && Own(st.info, m, l2, v, 2)
    modifies st
    ensures st.Valid() && Extends(old(st.info), st.info) && SameMms(old(st.mms), st.mms)
    ensures SameLeaves(old(st.ts), st.ts, old(st.info)) && OffPath(old(st.ts), st.ts, old(st.info), m, v)
    ensures l2 in st.ts && |st.ts[l2]| == 512
    ensures rc == 0 || rc == -1
    ensures rc == 0 ==> st.ts[l2][Idx(2, v)].present
    ensures rc == 0 && st.ts[l2][Idx(2, v)].ps ==> l1 == None
    ensures rc == 0 && !st.ts[l2][Idx(2, v)].ps ==>
              l1.Some? && l1.value in st.ts && Own(st.info, m, l1.value, v, 3) &&
              st.ts[l2][Idx(2, v)].ppn == l1.value
    ensures rc != 0 ==> |st.heap| == 0 || LeafAt(st.ts, l2, 2, v) == None
    ensures old(var e := st.ts[l2][Idx(2, v)]; IsHuge(2, e) || (IsTable(2, e) && e.ppn in st.mms[m].allocs)) ==>
              rc == 0 && st.ts == old(st.ts)
  {
    l1 := None;
    assert MmOk(st.ts, st.info, m, st.mms[m]);
    NextTable(st.ts, st.info, m, st.mms[m], l2, 2, v);
    var e := st.ts[l2][Idx(2, v)];
    if !e.present {
      return -1, l1;
    }
    if e.ps {
      return 0, l1;
    }
    var ok, c := Unshare(st, m, l2, 2, v);
    if !ok {
      return -1, l1;
    }
    rc, l1 := 0, Some(c);
  }

  /** Levels 4 and 3 of the path together. */
  method PrivateTop(st: TableStore, m: nat, v: nat) returns (ok: bool, l2: Id)
    requires st.Valid() && m in st.mms
    modifies st
    ensures st.Valid() && Extends(old(st.info), st.info) && SameMms(old(st.mms), st.mms)
    ensures SameLeaves(old(st.ts), st.ts, old(st.info)) && OffPath(old(st.ts), st.ts, old(st.info), m, v)
    ensures ok ==> l2 in st.ts && |st.ts[l2]| == 512 && Own(st.info, m, l2, v, 2)
    ensures !ok ==> |st.heap| == 0 || LeafOf(st.ts, st.mms[m].root, v) == None
    ensures old(OwnChain(st.ts, st.mms[m], v)) ==>
              ok && l2 == old(ChainEnd(st.ts, st.mms[m], v)) && st.ts == old(st.ts) && st.mms == old(st.mms)
  {
    l2 := 0;
    assert MmOk(st.ts, st.info, m, st.mms[m]);
    var root := st.mms[m].root;
    if !st.ts[root][Idx(4, v)].present {
      return false, l2;
    }
    var l3;
    ok, l3 := Unshare(st, m, root, 4, v);
    if !ok {
      return;
    }
    ghost var ts1, info1 := st.ts, st.info;
    ok, l2 := PrivateMiddle(st, m, l3, v);
    SameLeavesTrans(old(st.ts), ts1, st.ts, old(st.info), info1);
    OffPathTrans(old(st.ts), ts1, st.ts, old(st.info), info1, m, v);
    assert MmOk(st.ts, st.info, m, st.mms[m]);
    Reach(st.ts, st.info, root, l3, v);
  }

  /** mm_fork_private_pt_path against the kernel's tables: the path to v becomes m's
      own and no leaf of any root changes. It fails only when a page is needed and
      the heap is empty, when v is not mapped, or when the baseline has no top entry. */
  method PrivatePath(st: TableStore, m: nat, v: nat) returns (rc: int, l2: Id, l1: Option<Id>)
    requires st.Valid() && m in st.mms
    modifies st
    ensures st.Valid() && Extends(old(st.info), st.info) && SameMms(old(st.mms), st.mms)
    ensures SameLeaves(old(st.ts), st.ts, old(st.info)) && OffPath(old(st.ts), st.ts, old(st.info), m, v)
    ensures rc == 0 || rc == -1
    ensures rc == 0 ==> l2 in st.ts && |st.ts[l2]| == 512 && Own(st.info, m, l2, v, 2) && st.ts[l2][Idx(2, v)].present
    ensures rc == 0 && st.ts[l2][Idx(2, v)].ps ==> l1 == None
    ensures rc == 0 && !st.ts[l2][Idx(2, v)].ps ==>
              l1.Some? && l1.value in st.ts && Own(st.info, m, l1.value, v, 3) &&
              st.ts[l2][Idx(2, v)].ppn == l1.value
    ensures rc == 0 ==> v < LIMIT && old(ShareEntry(st.ts, st.kroot, 4, v)).present
    ensures rc != 0 ==> |st.heap| == 0 || v >= LIMIT || !old(ShareEntry(st.ts, st.kroot, 4, v)).present ||
                        LeafOf(st.ts, st.mms[m].root, v) == None
    ensures old(Ready(st.ts, st.info, st.kroot, m, v)) && v < LIMIT ==> rc == 0 && st.ts == old(st.ts)
  {
    l2, l1 := 0, None;
    if v >= LIMIT || !ShareEntry(st.ts, st.kroot, 4, v).present {
      return -1, l2, l1;
    }
    assert MmOk(st.ts, st.info, m, st.mms[m]);
    if Ready(st.ts, st.info, st.kroot, m, v) {
      ReadyIs(st.ts, st.info, st.kroot, m, st.mms[m], v);
    }
    var ok;
    ok, l2 := PrivateTop(st, m, v);
    if !ok {
      return -1, l2, l1;
    }
    ghost var ts1, info1 := st.ts, st.info;
    rc, l1 := PrivateLast(st, m, l2, v);
    SameLeavesTrans(old(st.ts), ts1, st.ts, old(st.info), info1);
    OffPathTrans(old(st.ts), ts1, st.ts, old(st.info), info1, m, v);
    assert MmOk(st.ts, st.info, m, st.mms[m]);
    Reach(st.ts, st.info, st.mms[m].root, l2, v);
  }

  // ------------------------------------------------------------ leaf writes

  /** One page of one root has the given leaf; every other page of every root keeps
      its own. */
  ghost predicate Updated(ts: Tables, ts': Tables, info: Infos, root: Id, v: nat, leaf: Option<Leaf>) {
    forall r: Id, u: nat {:trigger LeafOf(ts', r, u)} :: r in info && info[r].home == [] && u < SPACE ==>
      LeafOf(ts', r, u) == if r == root && u == v then leaf else LeafOf(ts, r, u)
  }

  /** What the page-table code may store in a last-level entry for page v. */
  predicate LeafEntryOk(v: nat, e: Entry) {
    (e.owned || e.cow ==> e.present && e.us) && (e.owned ==> e.ppn < LIMIT && v < LIMIT)
  }

  lemma WindowHome(v: nat)
    ensures v < LIMIT ==> InWindow(Path(v, 3), Idx(1, v))
  {
    if v < LIMIT {
      assert Path(v, 1)[0] == Idx(4, v);
      assert Path(v, 2)[0] == Idx(4, v) && Path(v, 2)[1] == Idx(3, v);
      assert Path(v, 3)[0] == Idx(4, v) && Path(v, 3)[1] == Idx(3, v);
    }
  }

  /** Store a last-level entry of a table that is m's own. */
  method WriteLeaf(st: TableStore, m: nat, id: Id, v: nat, e: Entry)
    requires st.Valid() && m in st.mms && Own(st.info, m, id, v, 3) && v < SPACE && LeafEntryOk(v, e)
    modifies st`ts
    ensures st.Valid() && OnlyTable(old(st.ts), st.ts, id)
    ensures id in st.ts && st.ts[id] == old(st.ts[id])[Idx(1, v) := e]
    ensures Updated(old(st.ts), st.ts, st.info, st.mms[m].root, v, Abs(if e.present then Some(e) else None))
    ensures e.present ==> LeafAt(st.ts, st.mms[m].root, 4, v) == Some(e)
  {
    assert MmOk(st.ts, st.info, m, st.mms[m]);
    assert WfTable(st.ts, st.info, id);
    var i := Idx(1, v);
    WindowHome(v);
    assert WfEntry(st.info, id, i, e);
    WfSetEntry(st.ts, st.info, id, i, e);
    ghost var ts' := SetEntry(st.ts, id, i, e);
    forall r: Id, u: nat | r in st.info && st.info[r].home == [] && u < SPACE
      ensures LeafAt(ts', r, 4, u) ==
              if r == st.mms[m].root && u == v then (if e.present then Some(e) else None) else LeafAt(st.ts, r, 4, u)
    {
      LeafWrite(st.ts, st.info, st.mms[m].root, id, e, v, r, u);
    }
    st.ts := SetEntry(st.ts, id, i, e);
    assert forall k {:trigger MmOk(st.ts, st.info, k, st.mms[k])} :: k in st.mms ==>
          MmOk(old(st.ts), st.info, k, st.mms[k]);
  }

  lemma ChunkPath(u: nat, v: nat)
    requires u < SPACE && v < SPACE
    ensures Path(u, 2) == Path(v, 2) && Idx(2, u) == Idx(2, v) <==> u / 512 == v / 512
  {
    PathLast(u, v, 2);
    PathLast(u, v, 1);
    Recompose(u);
    Recompose(v);
    assert u / 0x4_0000 == u / 512 / 512 && u / 0x800_0000 == u / 512 / 512 / 512;
    assert v / 0x4_0000 == v / 512 / 512 && v / 0x800_0000 == v / 512 / 512 / 512;
    if Path(u, 2) == Path(v, 2) && Idx(2, u) == Idx(2, v) {
      assert u - Idx(1, u) == v - Idx(1, v);
      assert u == u / 512 * 512 + Idx(1, u) && v == v / 512 * 512 + Idx(1, v);
    }
  }

  /** Clearing a 2 MiB leaf unmaps its 512 pages and nothing else. */
  lemma ChunkWrite(ts: Tables, info: Infos, root: Id, id: Id, v: nat, r: Id, u: nat)
    requires Wf(ts, info) && id in ts && root in ts && r in ts
    requires info[root].home == [] && info[r].home == [] && info[root].owner == info[id].owner != KERNEL
    requires info[id].home == Path(v, 2) && v < SPACE && u < SPACE
    requires Wf(SetEntry(ts, id, Idx(2, v), NIL), info)
    ensures LeafAt(SetEntry(ts, id, Idx(2, v), NIL), r, 4, u) ==
            if r == root && u / 512 == v / 512 then None else LeafAt(ts, r, 4, u)
  {
    var i := Idx(2, v);
    var ts' := SetEntry(ts, id, i, NIL);
    ChunkPath(u, v);
    if r == root && u / 512 == v / 512 {
      Reach(ts', info, root, id, u);
    } else {
      assert SamePlace(info, r, root) ==> r == root;
      WalkSetEntry(ts, info, r, id, i, NIL, u);
    }
  }

  /** l2[l2i] = 0 on a 2 MiB leaf of a table that is m's own. */
  method ClearChunk(st: TableStore, m: nat, id: Id, v: nat)
    requires st.Valid() && m in st.mms && Own(st.info, m, id, v, 2) && v < SPACE && IsHuge(2, st.ts[id][Idx(2, v)])
    modifies st`ts
    ensures st.Valid() && OnlyTable(old(st.ts), st.ts, id)
    ensures id in st.ts && st.ts[id] == old(st.ts[id])[Idx(2, v) := NIL]
    ensures forall r: Id, u: nat {:trigger LeafOf(st.ts, r, u)} ::
              r in st.info && st.info[r].home == [] && u < SPACE ==>
              LeafOf(st.ts, r, u) == if r == st.mms[m].root && u / 512 == v / 512 then None
                  else LeafOf(old(st.ts), r, u)
  {
    assert MmOk(st.ts, st.info, m, st.mms[m]);
    assert WfTable(st.ts, st.info, id);
    var i := Idx(2, v);
    assert WfEntry(st.info, id, i, NIL);
    WfSetEntry(st.ts, st.info, id, i, NIL);
    ghost var ts' := SetEntry(st.ts, id, i, NIL);
    forall r: Id, u: nat | r in st.info && st.info[r].home == [] && u < SPACE
      ensures LeafAt(ts', r, 4, u) == if r == st.mms[m].root && u / 512 == v / 512 then None else LeafAt(st.ts, r, 4, u)
    {
      ChunkWrite(st.ts, st.info, st.mms[m].root, id, v, r, u);
    }
    st.ts := SetEntry(st.ts, id, i, NIL);
    assert forall k {:trigger MmOk(st.ts, st.info, k, st.mms[k])} :: k in st.mms ==>
          MmOk(old(st.ts), st.info, k, st.mms[k]);
  }

  // ------------------------------------------------------------ mapping a page

  lemma AllowsChain(ts: Tables, root: Id, l3: Id, l2: Id, l1: Id, v: nat, write: bool)
    requires OpenTo(ts, root, Idx(4, v), l3, write) && OpenTo(ts, l3, Idx(3, v), l2, write)
    requires OpenTo(ts, l2, Idx(2, v), l1, write)
    requires |ts[root]| == |ts[l3]| == |ts[l2]| == 512 && l1 in ts && |ts[l1]| == 512
    requires ts[l1][Idx(1, v)].present && ts[l1][Idx(1, v)].us && (write ==> ts[l1][Idx(1, v)].rw)
    ensures PathAllows(ts, root, 4, v, write)
  {
    assert PathAllows(ts, l1, 1, v, write);
    assert PathAllows(ts, l2, 2, v, write);
    assert PathAllows(ts, l3, 3, v, write);
  }

  /** The leaf that mm_map_user_page stores: PRESENT and US forced on, PS off. */
  function UserLeaf(ppn: nat, flags: Entry): Entry {
    flags.(ppn := ppn, present := true, us := true, ps := false)
  }

  /** mm_map_user_page_locked up to the store; was is the entry it replaces. */
  method MapLeaf(st: TableStore, m: nat, v: nat, ppn: nat, flags: Entry) returns (rc: int, was: Entry)
    requires st.Valid() && m in st.mms && v < LIMIT && (flags.owned ==> ppn < LIMIT)
    modifies st
    ensures st.Valid() && Extends(old(st.info), st.info) && SameMms(old(st.mms), st.mms)
    ensures rc in {0, -3, -5, -6, -7, -9, -10, -11, -13} && (rc != 0 ==> |st.heap| == 0)
    ensures rc == 0 ==> Updated(old(st.ts), st.ts, old(st.info), st.mms[m].root, v, Abs(Some(UserLeaf(ppn, flags))))
    ensures rc == 0 ==> LeafAt(st.ts, st.mms[m].root, 4, v) == Some(UserLeaf(ppn, flags))
    ensures rc == 0 ==> PathAllows(st.ts, st.mms[m].root, 4, v, flags.rw)
    ensures rc == 0 ==>
              Abs(if was.present then Some(was) else None) == old(LeafOf(st.ts, st.mms[m].root, v)) &&
              (was.owned ==> was.present)
    ensures rc != 0 ==> SameLeaves(old(st.ts), st.ts, old(st.info))
  {
    was := NIL;
    var l3, l2, l1;
    assert MmOk(st.ts, st.info, m, st.mms[m]);
    rc, l3, l2, l1 := st.InstallPath(m, v);
    if rc != 0 {
      return;
    }
    MapLeafHelp(st, m, v, l1);
    was := st.ts[l1][Idx(1, v)];
    ghost var ts1 := st.ts;
    WriteLeaf(st, m, l1, v, UserLeaf(ppn, flags));
    UpdatedAfter(old(st.ts), ts1, st.ts, old(st.info), st.info, st.mms[m].root, v, Abs(Some(UserLeaf(ppn, flags))));
    ChainDistinct(ts1, st.ts, st.info, m, st.mms[m], l3, l2, l1, v, true);
    assert OpenTo(st.ts, st.mms[m].root, Idx(4, v), l3, flags.rw) && OpenTo(st.ts, l3, Idx(3, v), l2, flags.rw) &&
        OpenTo(st.ts, l2, Idx(2, v), l1, flags.rw);
    AllowsChain(st.ts, st.mms[m].root, l3, l2, l1, v, flags.rw);
  }

  /** What the last-level table of the installed path holds for v. */
  lemma MapLeafHelp(st: TableStore, m: nat, v: nat, l1: Id)
    requires st.Valid() && m in st.mms && Own(st.info, m, l1, v, 3) && l1 in st.ts
    ensures |st.ts[l1]| == 512
    ensures var was := st.ts[l1][Idx(1, v)];
            Abs(if was.present then Some(was) else None) == LeafOf(st.ts, st.mms[m].root, v) &&
                (was.owned ==> was.present)
  {
    assert MmOk(st.ts, st.info, m, st.mms[m]);
    assert WfTable(st.ts, st.info, l1);
    assert WfEntry(st.info, l1, Idx(1, v), st.ts[l1][Idx(1, v)]);
    Reach(st.ts, st.info, st.mms[m].root, l1, v);
  }

  lemma UpdatedAfter(a: Tables, b: Tables, c: Tables, info: Infos, info': Infos, root: Id, v: nat, leaf: Option<Leaf>)
    requires SameLeaves(a, b, info) && Updated(b, c, info', root, v, leaf) && Extends(info, info')
    ensures Updated(a, c, info, root, v, leaf)
  {
    forall r: Id, u: nat | r in info && info[r].home == [] && u < SPACE
      ensures LeafOf(c, r, u) == if r == root && u == v then leaf else LeafOf(a, r, u)
    {
      assert LeafOf(b, r, u) == LeafOf(a, r, u);
    }
  }

  /** The three pointers above m's own last-level table for v. */
  ghost predicate Chain(ts: Tables, root: Id, l3: Id, l2: Id, l1: Id, v: nat) {
    root in ts && l3 in ts && l2 in ts && |ts[root]| == |ts[l3]| == |ts[l2]| == 512 &&
    IsTable(4, ts[root][Idx(4, v)]) && ts[root][Idx(4, v)].ppn == l3 &&
    IsTable(3, ts[l3][Idx(3, v)]) && ts[l3][Idx(3, v)].ppn == l2 &&
    IsTable(2, ts[l2][Idx(2, v)]) && ts[l2][Idx(2, v)].ppn == l1
  }

  lemma OwnUp(ts: Tables, info: Infos, m: nat, mm: Mm, l1: Id, v: nat)
    requires Wf(ts, info) && MmOk(ts, info, m, mm) && Own(info, m, l1, v, 3)
    ensures var l2 := info[l1].parent; l2 in info && var l3 := info[l2].parent;
            Chain(ts, mm.root, l3, l2, l1, v) && Own(info, m, l2, v, 2) && Own(info, m, l3, v, 1)
  {
    assert WfTable(ts, info, l1);
    assert info[l1].home == Path(v, 2) + [Idx(2, v)] by { PathSnoc(v, Path(v, 2)); }
    assert info[l1].home[..2] == Path(v, 2);
    var l2 := info[l1].parent;
    ReadyChain(ts, info, m, mm, l2, v);
    assert WfTable(ts, info, l2);
    assert info[l2].home == Path(v, 1) + [Idx(3, v)] by { PathSnoc(v, Path(v, 1)); }
    assert info[l2].home[..1] == Path(v, 1);
    assert SamePlace(info, info[l2].parent, ts[mm.root][Idx(4, v)].ppn) by {
      assert WfTable(ts, info, mm.root);
      assert WfEntry(info, mm.root, Idx(4, v), ts[mm.root][Idx(4, v)]);
      PathSnoc(v, Path(v, 0));
    }
  }

  /** Storing in the last table leaves the pointers to it alone. */
  lemma ChainDistinct(ts: Tables, ts': Tables, info: Infos, m: nat, mm: Mm, l3: Id, l2: Id, l1: Id, v: nat, write: bool)
    requires Wf(ts, info) && MmOk(ts, info, m, mm) && OnlyTable(ts, ts', l1) && Shaped(ts', info)
    requires OpenTo(ts, mm.root, Idx(4, v), l3, write) && OpenTo(ts, l3, Idx(3, v), l2, write)
    requires OpenTo(ts, l2, Idx(2, v), l1, write)
    requires IsTable(3, ts[l3][Idx(3, v)]) && IsTable(2, ts[l2][Idx(2, v)]) && Own(info, m, l1, v, 3)
    ensures OpenTo(ts', mm.root, Idx(4, v), l3, write) && OpenTo(ts', l3, Idx(3, v), l2, write)
    ensures OpenTo(ts', l2, Idx(2, v), l1, write)
  {
    assert WfTable(ts, info, mm.root);
    assert WfEntry(info, mm.root, Idx(4, v), ts[mm.root][Idx(4, v)]);
    assert WfTable(ts, info, l3);
    assert WfEntry(info, l3, Idx(3, v), ts[l3][Idx(3, v)]);
    assert |info[l3].home| == 1 && |info[l2].home| == 2;
  }

  /** A table of m's own for the next level: a new one, a copy, or the one it has. */
  method NextOwn(st: TableStore, m: nat, id: Id, lvl: nat, v: nat) returns (ok: bool, c: Id)
    requires st.Valid() && m in st.mms && 2 <= lvl <= 4 && Own(st.info, m, id, v, 4 - lvl)
    requires !IsHuge(lvl, st.ts[id][Idx(lvl, v)])
    modifies st
    ensures st.Valid() && Extends(old(st.info), st.info) && SameMms(old(st.mms), st.mms)
    ensures SameLeaves(old(st.ts), st.ts, old(st.info))
    ensures ok ==> c in st.ts && Own(st.info, m, c, v, 5 - lvl)
    ensures !ok ==> |st.heap| == 0
  {
    assert MmOk(st.ts, st.info, m, st.mms[m]);
    NextTable(st.ts, st.info, m, st.mms[m], id, lvl, v);
    PathSnoc(v, st.info[id].home);
    if !st.ts[id][Idx(lvl, v)].present {
      ok, c := st.LinkEmpty(m, id, Idx(lvl, v));
    } else {
      ok, c := Unshare(st, m, id, lvl, v);
    }
  }

  /** Split a huge leaf if there is one, then a table of m's own. */
  method SplitNextOwn(st: TableStore, m: nat, id: Id, lvl: nat, v: nat) returns (ok: bool, c: Id)
    requires st.Valid() && m in st.mms && 2 <= lvl <= 3 && Own(st.info, m, id, v, 4 - lvl)
    modifies st
    ensures st.Valid() && Extends(old(st.info), st.info) && SameMms(old(st.mms), st.mms)
    ensures SameLeaves(old(st.ts), st.ts, old(st.info))
    ensures ok ==> c in st.ts && Own(st.info, m, c, v, 5 - lvl)
    ensures !ok ==> |st.heap| == 0 || LeafAt(st.ts, id, lvl, v) == None
  {
    c := 0;
    ok := st.BreakHuge(m, id, lvl, v);
    if !ok {
      return;
    }
    if lvl == 3 && st.ts[id][Idx(lvl, v)].ps {
      return false, c;
    }
    ghost var ts1, info1 := st.ts, st.info;
    ok, c := NextOwn(st, m, id, lvl, v);
    SameLeavesTrans(old(st.ts), ts1, st.ts, old(st.info), info1);
  }

  /** The table walk of mm_map_4k_sharedaware_body against the kernel's tables. */
  method SharedAwarePath(st: TableStore, m: nat, v: nat) returns (ok: bool, l1: Id)
    requires st.Valid() && m in st.mms
    modifies st
    ensures st.Valid() && Extends(old(st.info), st.info) && SameMms(old(st.mms), st.mms)
    ensures SameLeaves(old(st.ts), st.ts, old(st.info))
    ensures ok ==> l1 in st.ts && Own(st.info, m, l1, v, 3)
    ensures !ok ==> |st.heap| == 0 || LeafOf(st.ts, st.mms[m].root, v) == None ||
                    !old(ShareEntry(st.ts, st.kroot, 4, v)).present || !old(ShareEntry(st.ts, st.kroot, 3, v)).present
  {
    l1 := 0;
    assert MmOk(st.ts, st.info, m, st.mms[m]);
    var share3 := ShareEntry(st.ts, st.kroot, 3, v);
    if !ShareEntry(st.ts, st.kroot, 4, v).present {
      return false, l1;
    }
    var l3, l2;
    ok, l3 := NextOwn(st, m, st.mms[m].root, 4, v);
    if !ok {
      return;
    }
    ghost var ts1, info1 := st.ts, st.info;
    ok, l2 := SplitNextOwn(st, m, l3, 3, v);
    SameLeavesTrans(old(st.ts), ts1, st.ts, old(st.info), info1);
    assert MmOk(st.ts, st.info, m, st.mms[m]);
    Reach(st.ts, st.info, st.mms[m].root, l3, v);
    if !ok || !share3.present {
      return false, l1;
    }
    ghost var ts2, info2 := st.ts, st.info;
    ok, l1 := SplitNextOwn(st, m, l2, 2, v);
    SameLeavesTrans(old(st.ts), ts2, st.ts, old(st.info), info2);
    assert MmOk(st.ts, st.info, m, st.mms[m]);
    Reach(st.ts, st.info, st.mms[m].root, l2, v);
  }

  lemma OpenedStep(ts: Tables, ts': Tables, info: Infos, root: Id, l3: Id, l2: Id, l1: Id, v: nat, id: Id, i: nat,
                   write: bool)
    requires Shaped(ts, info) && Shaped(ts', info) && Chain(ts, root, l3, l2, l1, v)
    requires |info[root].home| == 0 && |info[l3].home| == 1 && |info[l2].home| == 2
    requires id in ts && OnlyTable(ts, ts', id) && i < 512
    requires ts'[id] == ts[id][i := Opened(ts[id][i], write)]
    ensures Chain(ts', root, l3, l2, l1, v)
    ensures forall x, j, c {:trigger OpenTo(ts', x, j, c, write)} :: OpenTo(ts, x, j, c, write) && x in info ==>
              OpenTo(ts', x, j, c, write)
  {
  }

  /** mm->pml4[l4i], l3[l3i] and l2[l2i] get US, and RW when the leaf has it. */
  method OpenPath(st: TableStore, m: nat, l1: Id, v: nat, write: bool) returns (l3: Id, l2: Id)
    requires st.Valid() && m in st.mms && Own(st.info, m, l1, v, 3)
    modifies st`ts
    ensures st.Valid() && SameLeaves(old(st.ts), st.ts, st.info)
    ensures OpenTo(st.ts, st.mms[m].root, Idx(4, v), l3, write) && OpenTo(st.ts, l3, Idx(3, v), l2, write)
    ensures OpenTo(st.ts, l2, Idx(2, v), l1, write)
    ensures IsTable(3, st.ts[l3][Idx(3, v)]) && IsTable(2, st.ts[l2][Idx(2, v)])
  {
    assert MmOk(st.ts, st.info, m, st.mms[m]);
    OwnUp(st.ts, st.info, m, st.mms[m], l1, v);
    var root := st.mms[m].root;
    l3 := st.ts[root][Idx(4, v)].ppn;
    l2 := st.ts[l3][Idx(3, v)].ppn;
    st.OpenPointer(m, root, Idx(4, v), write);
    OpenedStep(old(st.ts), st.ts, st.info, root, l3, l2, l1, v, root, Idx(4, v), write);
    ghost var ts1 := st.ts;
    st.OpenPointer(m, l3, Idx(3, v), write);
    OpenedStep(ts1, st.ts, st.info, root, l3, l2, l1, v, l3, Idx(3, v), write);
    SameLeavesTrans(old(st.ts), ts1, st.ts, st.info, st.info);
    ghost var ts2 := st.ts;
    st.OpenPointer(m, l2, Idx(2, v), write);
    OpenedStep(ts2, st.ts, st.info, root, l3, l2, l1, v, l2, Idx(2, v), write);
    SameLeavesTrans(old(st.ts), ts2, st.ts, st.info, st.info);
  }

  /** The leaf mm_map_4k_sharedaware stores: US in the user window, no RW under SOFT_COW. */
  function SharedAwareLeaf(v: nat, ppn: nat, flags: Entry): Entry {
    flags.(ppn := ppn, present := true, us := flags.us || UserWindow(v), ps := false, rw := flags.rw && !flags.cow)
  }

  /** mm_map_4k_sharedaware against the kernel's tables. It never releases the leaf it
      replaces. */
  method MapSharedAware(st: TableStore, m: nat, v: nat, ppn: nat, flags: Entry) returns (rc: int)
    requires st.Valid() && m in st.mms && (flags.owned ==> ppn < LIMIT) && (flags.owned || flags.cow ==> flags.us)
    modifies st
    ensures st.Valid() && Extends(old(st.info), st.info) && SameMms(old(st.mms), st.mms)
    ensures rc == 0 || rc == -1
    ensures rc == 0 ==> v < LIMIT && Updated(old(st.ts), st.ts, old(st.info), st.mms[m].root, v,
                                             Abs(Some(SharedAwareLeaf(v, ppn, flags))))
    ensures rc == 0 ==> LeafAt(st.ts, st.mms[m].root, 4, v) == Some(SharedAwareLeaf(v, ppn, flags))
    ensures rc == 0 && SharedAwareLeaf(v, ppn, flags).us ==>
              PathAllows(st.ts, st.mms[m].root, 4, v, flags.rw && !flags.cow)
    ensures rc != 0 ==> SameLeaves(old(st.ts), st.ts, old(st.info))
    ensures rc != 0 ==> v >= LIMIT || |st.heap| == 0 || LeafOf(st.ts, st.mms[m].root, v) == None ||
                        !old(ShareEntry(st.ts, st.kroot, 4, v)).present ||
                        !old(ShareEntry(st.ts, st.kroot, 3, v)).present
  {
    if v >= LIMIT {
      return -1;
    }
    var ok, l1 := SharedAwarePath(st, m, v);
    if !ok {
      return -1;
    }
    ghost var ts1, info1 := st.ts, st.info;
    StoreShared(st, m, v, l1, ppn, flags);
    UpdatedAfter(old(st.ts), ts1, st.ts, old(st.info), info1, st.mms[m].root, v,
                 Abs(Some(SharedAwareLeaf(v, ppn, flags))));
    rc := 0;
  }

  /** The second half of mm_map_4k_sharedaware_body: open the path and store the leaf. */
  method StoreShared(st: TableStore, m: nat, v: nat, l1: Id, ppn: nat, flags: Entry)
    requires st.Valid() && m in st.mms && v < LIMIT && l1 in st.ts && Own(st.info, m, l1, v, 3)
    requires (flags.owned ==> ppn < LIMIT) && (flags.owned || flags.cow ==> flags.us)
    modifies st`ts
    ensures st.Valid()
    ensures Updated(old(st.ts), st.ts, st.info, st.mms[m].root, v, Abs(Some(SharedAwareLeaf(v, ppn, flags))))
    ensures LeafAt(st.ts, st.mms[m].root, 4, v) == Some(SharedAwareLeaf(v, ppn, flags))
    ensures SharedAwareLeaf(v, ppn, flags).us ==> PathAllows(st.ts, st.mms[m].root, 4, v, flags.rw && !flags.cow)
  {
    var l3, l2 := OpenPath(st, m, l1, v, flags.rw);
    ghost var ts2 := st.ts;
    assert MmOk(st.ts, st.info, m, st.mms[m]);
    WriteLeaf(st, m, l1, v, SharedAwareLeaf(v, ppn, flags));
    UpdatedAfter(old(st.ts), ts2, st.ts, old(st.info), st.info, st.mms[m].root, v,
                 Abs(Some(SharedAwareLeaf(v, ppn, flags))));
    ChainDistinct(ts2, st.ts, st.info, m, st.mms[m], l3, l2, l1, v, flags.rw);
    if SharedAwareLeaf(v, ppn, flags).us {
      SharedAllows(st.ts, st.mms[m].root, l3, l2, l1, v, flags);
    }
  }

  lemma SharedAllows(ts: Tables, root: Id, l3: Id, l2: Id, l1: Id, v: nat, flags: Entry)
    requires OpenTo(ts, root, Idx(4, v), l3, flags.rw) && OpenTo(ts, l3, Idx(3, v), l2, flags.rw)
    requires OpenTo(ts, l2, Idx(2, v), l1, flags.rw)
    requires |ts[root]| == |ts[l3]| == |ts[l2]| == 512 && l1 in ts && |ts[l1]| == 512
    requires var e := ts[l1][Idx(1, v)]; e.present && e.us && e.rw == (flags.rw && !flags.cow)
    ensures PathAllows(ts, root, 4, v, flags.rw && !flags.cow)
  {
    var w := flags.rw && !flags.cow;
    assert OpenTo(ts, root, Idx(4, v), l3, w) && OpenTo(ts, l3, Idx(3, v), l2, w) && OpenTo(ts, l2, Idx(2, v), l1, w);
    AllowsChain(ts, root, l3, l2, l1, v, w);
  }

  // -------------------------------------------------------- write protection

  /** The walk for v ends in a huge leaf. */
  ghost predicate HugeAt(ts: Tables, id: Id, lvl: nat, v: nat)
    requires 1 <= lvl <= 4
    decreases lvl, v
  {
    id in ts && |ts[id]| == 512 &&
    (IsHuge(lvl, ts[id][Idx(lvl, v)]) ||
     (lvl > 1 && IsTable(lvl, ts[id][Idx(lvl, v)]) && HugeAt(ts, ts[id][Idx(lvl, v)].ppn, lvl - 1, v)))
  }

  /** A table met on the walk from m's root. */
  ghost predicate Met(ts: Tables, info: Infos, m: nat, id: Id, v: nat, k: nat)
    requires k <= 3
  {
    id in ts && id in info && |ts[id]| == 512 && info[id].home == Path(v, k) &&
        (info[id].owner == m || info[id].owner == KERNEL)
  }

  lemma MetNext(ts: Tables, info: Infos, m: nat, id: Id, lvl: nat, v: nat)
    requires Wf(ts, info) && 2 <= lvl <= 4 && Met(ts, info, m, id, v, 4 - lvl)
    requires IsTable(lvl, ts[id][Idx(lvl, v)])
    ensures Met(ts, info, m, ts[id][Idx(lvl, v)].ppn, v, 5 - lvl)
  {
    assert WfTable(ts, info, id);
    assert WfEntry(info, id, Idx(lvl, v), ts[id][Idx(lvl, v)]);
    PathSnoc(v, info[id].home);
  }

  /** The walk that mm_mark_share_user_readonly_page makes; None when a level is absent. */
  method FindLast(st: TableStore, m: nat, v: nat) returns (l1: Option<Id>)
    requires st.Valid() && m in st.mms && !HugeAt(st.ts, st.mms[m].root, 4, v)
    ensures l1.Some? ==>
              Met(st.ts, st.info, m, l1.value, v, 3) &&
              LeafAt(st.ts, st.mms[m].root, 4, v) == LeafAt(st.ts, l1.value, 1, v)
    ensures l1.None? ==> LeafAt(st.ts, st.mms[m].root, 4, v) == None
  {
    assert MmOk(st.ts, st.info, m, st.mms[m]);
    var l4 := st.mms[m].root;
    var e4 := st.ts[l4][Idx(4, v)];
    if !e4.present {
      return None;
    }
    MetNext(st.ts, st.info, m, l4, 4, v);
    var e3 := st.ts[e4.ppn][Idx(3, v)];
    if !e3.present {
      return None;
    }
    assert !HugeAt(st.ts, e4.ppn, 3, v);
    MetNext(st.ts, st.info, m, e4.ppn, 3, v);
    var e2 := st.ts[e3.ppn][Idx(2, v)];
    assert LeafAt(st.ts, e4.ppn, 3, v) == LeafAt(st.ts, e3.ppn, 2, v);
    if !e2.present {
      return None;
    }
    assert !HugeAt(st.ts, e3.ppn, 2, v);
    MetNext(st.ts, st.info, m, e3.ppn, 2, v);
    l1 := Some(e2.ppn);
    assert LeafAt(st.ts, e3.ppn, 2, v) == LeafAt(st.ts, e2.ppn, 1, v);
  }

  /** Write-protect an owned leaf, opening the path to user reads. */
  method ProtectEntry(st: TableStore, m: nat, v: nat) returns (done: bool)
    requires st.Valid() && m in st.mms && v < LIMIT && !HugeAt(st.ts, st.mms[m].root, 4, v)
    modifies st`ts
    ensures st.Valid()
    ensures done <==> old(LeafOf(st.ts, st.mms[m].root, v)).Some? && old(LeafOf(st.ts, st.mms[m].root, v)).value.owned
    ensures !done ==> st.ts == old(st.ts)
    ensures done ==> Updated(old(st.ts), st.ts, st.info, st.mms[m].root, v,
                             Some(old(LeafOf(st.ts, st.mms[m].root, v)).value.(rw := false, cow := true)))
  {
    var found := FindLast(st, m, v);
    if found.None? {
      return false;
    }
    var l1 := found.value;
    assert WfTable(st.ts, st.info, l1);
    var e := st.ts[l1][Idx(1, v)];
    assert WfEntry(st.info, l1, Idx(1, v), e);
    if !(e.present && e.us && e.owned) {
      return false;
    }
    var l3, l2 := OpenPath(st, m, l1, v, false);
    ghost var ts1 := st.ts;
    var e' := e.(rw := false, us := true, cow := true);
    WriteLeaf(st, m, l1, v, e');
    UpdatedAfter(old(st.ts), ts1, st.ts, st.info, st.info, st.mms[m].root, v, Abs(Some(e')));
    done := true;
  }
}
