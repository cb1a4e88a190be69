/**
The page-table half of an address space: allocating, duplicating and splitting
table pages, and the two routines that install one 4 KiB user leaf.
*/
module MmTables {
  import opened PageTables

  /** mm_struct: the top-level table, the list of table pages it allocated, and
      its reference count. */
  datatype Mm = Mm(root: Id, allocs: seq<Id>, refcount: nat)

  ghost predicate MmOk(ts: Tables, info: Infos, m: nat, mm: Mm) {
    m != KERNEL && mm.root in ts && mm.root in info && info[mm.root].owner == m && info[mm.root].home == [] &&
    (forall x {:trigger x in mm.allocs} :: x in mm.allocs <==> x in info && info[x].owner == m && info[x].home != []) &&
    (forall i, j :: 0 <= i < j < |mm.allocs| ==> mm.allocs[i] != mm.allocs[j])
  }

  /** The pages of the kernel heap that hold tables: in use, or free in heap. */
  ghost predicate HeapOk(ts: Tables, heap: seq<Id>, region: set<Id>) {
    ts.Keys <= region &&
    (forall i :: 0 <= i < |heap| ==> heap[i] !in ts && heap[i] < LIMIT && heap[i] in region) &&
    (forall i, j :: 0 <= i < j < |heap| ==> heap[i] != heap[j])
  }

  ghost predicate Owners(info: Infos, mms: map<nat, Mm>) {
    forall x {:trigger info[x]} :: x in info ==> info[x].owner == KERNEL || info[x].owner in mms
  }

  ghost predicate TablesOk(ts: Tables, info: Infos, heap: seq<Id>, mms: map<nat, Mm>, kroot: Id, region: set<Id>) {
    Wf(ts, info) && HeapOk(ts, heap, region) && Owners(info, mms) &&
    kroot in ts && info[kroot].owner == KERNEL && info[kroot].home == [] &&
    forall m {:trigger MmOk(ts, info, m, mms[m])} :: m in mms ==> MmOk(ts, info, m, mms[m])
  }

  /** Address spaces keep their identity, root and reference count. */
  ghost predicate SameMms(mms: map<nat, Mm>, mms': map<nat, Mm>) {
    mms.Keys == mms'.Keys &&
    forall m {:trigger mms'[m]} :: m in mms ==> mms'[m].root == mms[m].root && mms'[m].refcount == mms[m].refcount
  }

  lemma SameMmsTrans(a: map<nat, Mm>, b: map<nat, Mm>, c: map<nat, Mm>)
    requires SameMms(a, b) && SameMms(b, c)
    ensures SameMms(a, c)
  {
    forall m | m in a
      ensures c[m].root == a[m].root && c[m].refcount == a[m].refcount
    {
      assert b[m].root == a[m].root;
    }
  }

  lemma MmOkLink(ts: Tables, ts': Tables, info: Infos, n: Id, inf: Info, m: nat, mm: Mm)
    requires MmOk(ts, info, m, mm) && n !in info && mm.root in ts' && inf.home != []
    ensures inf.owner == m ==> MmOk(ts', info[n := inf], m, mm.(allocs := mm.allocs + [n]))
    ensures inf.owner != m ==> MmOk(ts', info[n := inf], m, mm)
  {
    assert n !in mm.allocs;
  }

  /** Bookkeeping after a table n was allocated for m and hung under table id. */
  lemma LinkOk(ts: Tables, info: Infos, heap: seq<Id>, mms: map<nat, Mm>, kroot: Id, region: set<Id>,
               m: nat, id: Id, i: nat, content: seq<Entry>, e: Entry)
    requires TablesOk(ts, info, heap, mms, kroot, region) && |heap| > 0 && m in mms
    requires Linkable(ts, info, id, i) && info[id].owner == m
    requires IsTable(Level(info[id]), e) && e.ppn == heap[0] && !e.ps && !e.nx
    requires EntriesOk(info[heap[0] := ChildInfo(info, id, i)], heap[0], content)
    ensures var n := heap[0];
            TablesOk(SetEntry(ts[n := content], id, i, e), info[n := ChildInfo(info, id, i)], heap[1..],
                     mms[m := mms[m].(allocs := mms[m].allocs + [n])], kroot, region)
  {
    var n := heap[0];
    assert MmOk(ts, info, m, mms[m]);
    WfLink(ts, info, id, i, n, content, e);
    var ts', info' := SetEntry(ts[n := content], id, i, e), info[n := ChildInfo(info, id, i)];
    var mms' := mms[m := mms[m].(allocs := mms[m].allocs + [n])];
    forall k | k in mms'
      ensures MmOk(ts', info', k, mms'[k])
    {
      assert MmOk(ts, info, k, mms[k]);
      MmOkLink(ts, ts', info, n, ChildInfo(info, id, i), k, mms[k]);
    }
  }

  lemma DupEntries(ts: Tables, info: Infos, id: Id, i: nat, n: Id)
    requires Wf(ts, info) && Linkable(ts, info, id, i) && n !in info && IsTable(Level(info[id]), ts[id][i])
    ensures ts[id][i].ppn in ts && info[ts[id][i].ppn].owner == KERNEL
    ensures EntriesOk(info[n := ChildInfo(info, id, i)], n, ts[ts[id][i].ppn])
  {
    var k := ts[id][i].ppn;
    var info' := info[n := ChildInfo(info, id, i)];
    assert WfEntry(info, id, i, ts[id][i]);
    assert WfTable(ts, info, k);
    forall j | 0 <= j < 512
      ensures WfEntry(info', n, j, ts[k][j])
    {
      CopiedEntry(info, k, n, ChildInfo(info, id, i), j, ts[k][j]);
    }
  }

  /** A kernel table's entry is good in any table that takes its place. */
  lemma CopiedEntry(info: Infos, k: Id, n: Id, inf: Info, j: nat, e: Entry)
    requires k in info && n !in info && info[k].owner == KERNEL && info[k].home == inf.home && |inf.home| <= 3
    requires WfEntry(info, k, j, e)
    ensures WfEntry(info[n := inf], n, j, e)
  {
  }

  lemma EmptyEntries(info: Infos, n: Id, content: seq<Entry>)
    requires n in info && |content| == 512 && forall j :: 0 <= j < 512 ==> content[j] == NIL
    requires |info[n].home| <= 3
    ensures EntriesOk(info, n, content)
  {
    forall j | 0 <= j < 512
      ensures WfEntry(info, n, j, content[j])
    {
      assert content[j] == NIL;
    }
  }

  /** What linking a table leaves as it was, for every root. */
  lemma LinkSame(ts: Tables, info: Infos, id: Id, i: nat, n: Id, content: seq<Entry>, e: Entry)
    requires Wf(ts, info) && Linkable(ts, info, id, i) && info[id].owner != KERNEL && n !in ts
    requires Wf(SetEntry(ts[n := content], id, i, e), info[n := ChildInfo(info, id, i)])
    requires forall r: Id, v: nat :: r in info && info[r].home == [] && Through(info, r, id, i, v) && v < SPACE ==>
               LeafOf(SetEntry(ts[n := content], id, i, e), r, v) == LeafOf(ts, r, v)
    ensures SameLeaves(ts, SetEntry(ts[n := content], id, i, e), info)
  {
    var ts' := SetEntry(ts[n := content], id, i, e);
    forall r: Id, v: nat | r in info && info[r].home == [] && v < SPACE
      ensures LeafOf(ts', r, v) == LeafOf(ts, r, v)
    {
      if !Through(info, r, id, i, v) {
        LinkElsewhere(ts, info, r, id, i, n, content, e, v);
      }
    }
  }

  /** The user pointer flags PRESENT | RW | US. */
  function UserPointer(n: Id): Entry {
    NIL.(ppn := n, present := true, rw := true, us := true)
  }

  /** A pointer to table n with the low twelve bits of e. */
  function Repoint(e: Entry, n: Id): Entry {
    e.(ppn := n, nx := false)
  }

  /** Tables other than id are as they were. */
  ghost predicate OnlyTable(ts: Tables, ts': Tables, id: Id) {
    forall x {:trigger ts'[x]} :: x in ts && x != id ==> x in ts' && ts'[x] == ts[x]
  }

  /** Table id is m's own, at depth k on the path to page v. */
  ghost predicate Own(info: Infos, m: nat, id: Id, v: nat, k: nat)
    requires k <= 3
  {
    id in info && info[id].owner == m && info[id].home == Path(v, k)
  }

  /** Entry i of table id leads to table c and lets user accesses through, writes
      too if asked. */
  ghost predicate OpenTo(ts: Tables, id: Id, i: nat, c: Id, write: bool) {
    id in ts && i < |ts[id]| && ts[id][i].present && ts[id][i].ppn == c && ts[id][i].us && (write ==> ts[id][i].rw)
  }

  /** Only entries on m's own path to v may differ; every other owner's tables, the
      kernel's included, are as they were. */
  ghost predicate OffPath(ts: Tables, ts': Tables, info: Infos, m: nat, v: nat) {
    forall x, j {:trigger ts'[x][j]} {:trigger ts[x][j]} ::
      x in ts && x in info && |info[x].home| <= 3 && 0 <= j < |ts[x]| ==>
      x in ts' && |ts'[x]| == |ts[x]| && (ts'[x][j] == ts[x][j] || OnEntry(info[x], m, v, j))
  }

  ghost predicate OnEntry(inf: Info, m: nat, v: nat, j: nat)
    requires |inf.home| <= 3
  {
    inf.owner == m && inf.home == Path(v, |inf.home|) && j == Idx(Level(inf), v)
  }

  lemma OffPathTrans(a: Tables, b: Tables, c: Tables, info: Infos, info': Infos, m: nat, v: nat)
    requires OffPath(a, b, info, m, v) && OffPath(b, c, info', m, v) && Extends(info, info')
    ensures OffPath(a, c, info, m, v)
  {
    hide OnEntry;
    forall x, j | x in a && x in info && |info[x].home| <= 3 && 0 <= j < |a[x]|
      ensures x in c && |c[x]| == |a[x]| && (c[x][j] == a[x][j] || OnEntry(info[x], m, v, j))
    {
      var e := a[x][j];
      assert b[x][j] == e || OnEntry(info[x], m, v, j);
    }
  }

  lemma OffPathStep(ts: Tables, ts': Tables, info: Infos, m: nat, v: nat, id: Id, lvl: nat)
    requires Shaped(ts, info) && 1 <= lvl <= 4 && Own(info, m, id, v, 4 - lvl) && OnlyTable(ts, ts', id)
    requires id in ts && id in ts' && |ts'[id]| == 512
    requires forall j :: 0 <= j < 512 && j != Idx(lvl, v) ==> ts'[id][j] == ts[id][j]
    ensures OffPath(ts, ts', info, m, v)
  {
  }

  lemma SameLeavesTrans(a: Tables, b: Tables, c: Tables, info: Infos, info': Infos)
    requires SameLeaves(a, b, info) && SameLeaves(b, c, info') && Extends(info, info')
    ensures SameLeaves(a, c, info)
  {
    forall r: Id, v: nat | r in info && info[r].home == [] && v < SPACE
      ensures LeafOf(c, r, v) == LeafOf(a, r, v)
    {
      assert LeafOf(b, r, v) == LeafOf(a, r, v);
    }
  }

  /** Changing the US and RW bits of a table pointer changes no leaf. */
  /** A pointer with US, and RW if asked. */
  function Opened(e: Entry, write: bool): Entry { e.(rw := e.rw || write, us := true) }

  lemma OpenedFlags(e: Entry, write: bool)
    ensures var o := Opened(e, write); o == e.(rw := o.rw, us := o.us)
  {
  }

  lemma TableShape(ts: Tables, info: Infos, heap: seq<Id>, mms: map<nat, Mm>, kroot: Id, region: set<Id>, id: Id)
    requires TablesOk(ts, info, heap, mms, kroot, region) && id in ts
    ensures id in info && |ts[id]| == 512
  {
  }

  lemma FlagStep(ts: Tables, info: Infos, heap: seq<Id>, mms: map<nat, Mm>, kroot: Id, region: set<Id>,
                 m: nat, id: Id, i: nat, e: Entry)
    requires TablesOk(ts, info, heap, mms, kroot, region) && m in mms && id in ts && i < 512 && info[id].owner == m
    requires IsTable(Level(info[id]), ts[id][i]) && e == ts[id][i].(rw := e.rw, us := e.us)
    ensures TablesOk(SetEntry(ts, id, i, e), info, heap, mms, kroot, region)
    ensures SameLeaves(ts, SetEntry(ts, id, i, e), info)
  {
    var ts' := SetEntry(ts, id, i, e);
    assert MmOk(ts, info, m, mms[m]);
    assert WfTable(ts, info, id);
    assert WfEntry(info, id, i, ts[id][i]);
    assert WfEntry(info, id, i, e);
    WfSetEntry(ts, info, id, i, e);
    forall r: Id, v: nat | r in info && info[r].home == [] && v < SPACE
      ensures LeafOf(ts', r, v) == LeafOf(ts, r, v)
    {
      PointerFlagsWalk(ts, info, r, id, i, e, v);
    }
    forall k | k in mms
      ensures MmOk(ts', info, k, mms[k])
    {
      assert MmOk(ts, info, k, mms[k]);
    }
  }

  /** What an entry on m's own path can be: absent, m's own next table, or a
      kernel table that m still shares. */
  lemma NextTable(ts: Tables, info: Infos, m: nat, mm: Mm, id: Id, lvl: nat, v: nat)
    requires Wf(ts, info) && MmOk(ts, info, m, mm) && 2 <= lvl <= 4 && Own(info, m, id, v, 4 - lvl)
    ensures var e := ts[id][Idx(lvl, v)];
            WfEntry(info, id, Idx(lvl, v), e) && Level(info[id]) == lvl &&
            (!e.present || IsHuge(lvl, e) ==> Linkable(ts, info, id, Idx(lvl, v))) &&
            (IsTable(lvl, e) ==>
              e.ppn in ts && e.ppn < LIMIT && info[e.ppn].home == Path(v, 5 - lvl) &&
              (if e.ppn in mm.allocs then info[e.ppn].owner == m
               else info[e.ppn].owner == KERNEL && Linkable(ts, info, id, Idx(lvl, v))))
  {
    var i := Idx(lvl, v);
    var e := ts[id][i];
    assert WfTable(ts, info, id);
    assert WfEntry(info, id, i, e);
    PathSnoc(v, info[id].home);
    if IsTable(lvl, e) {
      assert WfTable(ts, info, e.ppn);
    }
  }

  // ------------------------------------------------ new and dead address spaces

  /** A copy of the kernel's top-level table makes a new address space. */
  lemma WfNewRoot(ts: Tables, info: Infos, kroot: Id, n: Id, m: nat)
    requires Wf(ts, info) && kroot in ts && info[kroot].owner == KERNEL && info[kroot].home == []
    requires n !in ts && n < LIMIT && m != KERNEL && forall x :: x in info ==> info[x].owner != m
    ensures Wf(ts[n := ts[kroot]], info[n := Info(m, [], n)])
  {
    var ts', info' := ts[n := ts[kroot]], info[n := Info(m, [], n)];
    assert WfTable(ts, info, kroot);
    RootEntries(info, kroot, n, m, ts[kroot]);
    forall x | x in ts
      ensures WfTable(ts', info', x)
    {
      assert WfTable(ts, info, x);
      OldTable(ts, info, n, ts[kroot], Info(m, [], n), x);
    }
    DistinctAdd(info, n, Info(m, [], n));
  }

  lemma RootEntries(info: Infos, kroot: Id, n: Id, m: nat, content: seq<Entry>)
    requires kroot in info && n !in info && info[kroot].owner == KERNEL && info[kroot].home == []
    requires EntriesOk(info, kroot, content)
    ensures EntriesOk(info[n := Info(m, [], n)], n, content)
  {
    forall j | 0 <= j < 512
      ensures WfEntry(info[n := Info(m, [], n)], n, j, content[j])
    {
      assert WfEntry(info, kroot, j, content[j]);
      CopiedEntry(info, kroot, n, Info(m, [], n), j, content[j]);
    }
  }

  /** Adding a table that nothing names spoils no other. */
  lemma OldTable(ts: Tables, info: Infos, n: Id, content: seq<Entry>, inf: Info, x: Id)
    requires x in ts && x in info && n !in ts && n !in info && WfTable(ts, info, x)
    ensures WfTable(ts[n := content], info[n := inf], x)
  {
    forall j | 0 <= j < 512
      ensures WfEntry(info[n := inf], x, j, ts[x][j])
    {
      EntryMono(info, info[n := inf], x, j, ts[x][j]);
    }
  }

  /** The new address space sees what the kernel sees, and nobody else notices. */
  lemma NewRootWalk(ts: Tables, info: Infos, kroot: Id, n: Id, r: Id, v: nat)
    requires Wf(ts, info) && kroot in ts && info[kroot].owner == KERNEL && info[kroot].home == [] && n !in ts
    requires r in ts && info[r].home == []
    ensures LeafAt(ts[n := ts[kroot]], r, 4, v) == LeafAt(ts, r, 4, v)
    ensures LeafAt(ts[n := ts[kroot]], n, 4, v) == LeafAt(ts, kroot, 4, v)
  {
    WalkAddTable(ts, info, r, n, ts[kroot], v);
    assert WfTable(ts, info, kroot);
    var e := ts[kroot][Idx(4, v)];
    assert WfEntry(info, kroot, Idx(4, v), e);
    if IsTable(4, e) {
      assert WfTable(ts, info, e.ppn);
      PathSnoc(v, info[kroot].home);
      WalkFrame(ts, ts[n := ts[kroot]], info, e.ppn, KERNEL, v);
    }
  }

  ghost function Without(info: Infos, m: nat): Infos { map x | x in info && info[x].owner != m :: info[x] }

  /** The tables that are left when m's are freed. */
  lemma WfDrop(ts: Tables, info: Infos, m: nat, ts': Tables)
    requires Wf(ts, info) && m != KERNEL
    requires ts' == map x | x in ts && info[x].owner != m :: ts[x]
    ensures Wf(ts', Without(info, m))
  {
    var info' := Without(info, m);
    forall x | x in ts'
      ensures WfTable(ts', info', x)
    {
      assert WfTable(ts, info, x);
      forall j | 0 <= j < 512
        ensures WfEntry(info', x, j, ts[x][j])
      {
        assert WfEntry(info, x, j, ts[x][j]);
      }
    }
    forall a, b | SamePlace(info', a, b)
      ensures a == b
    {
      assert SamePlace(info, a, b);
    }
  }

  lemma DropWalk(ts: Tables, info: Infos, m: nat, ts': Tables, r: Id, v: nat)
    requires Wf(ts, info) && m != KERNEL && r in ts && info[r].home == [] && info[r].owner != m
    requires ts' == map x | x in ts && info[x].owner != m :: ts[x]
    ensures LeafAt(ts', r, 4, v) == LeafAt(ts, r, 4, v)
  {
    WalkFrame(ts, ts', info, r, info[r].owner, v);
  }

  lemma NewMmOk(ts: Tables, info: Infos, heap: seq<Id>, mms: map<nat, Mm>, kroot: Id, region: set<Id>, m: nat)
    requires TablesOk(ts, info, heap, mms, kroot, region) && |heap| > 0 && m !in mms && m != KERNEL
    ensures TablesOk(ts[heap[0] := ts[kroot]], info[heap[0] := Info(m, [], heap[0])], heap[1..],
                     mms[m := Mm(heap[0], [], 1)], kroot, region)
  {
    var n := heap[0];
    WfNewRoot(ts, info, kroot, n, m);
    var ts', info', mms' := ts[n := ts[kroot]], info[n := Info(m, [], n)], mms[m := Mm(n, [], 1)];
    forall k | k in mms'
      ensures MmOk(ts', info', k, mms'[k])
    {
      if k != m {
        assert MmOk(ts, info, k, mms[k]);
      }
    }
  }

  lemma FreeMmOk(ts: Tables, info: Infos, heap: seq<Id>, mms: map<nat, Mm>, kroot: Id, region: set<Id>, m: nat,
                 ts': Tables)
    requires TablesOk(ts, info, heap, mms, kroot, region) && m in mms
    requires ts' == map x | x in ts && info[x].owner != m :: ts[x]
    ensures TablesOk(ts', Without(info, m), heap + mms[m].allocs + [mms[m].root], mms - {m}, kroot, region)
  {
    assert MmOk(ts, info, m, mms[m]);
    WfDrop(ts, info, m, ts');
    FreedHeap(ts, info, heap, region, m, mms[m], ts');
    forall k | k in mms - {m}
      ensures MmOk(ts', Without(info, m), k, mms[k])
    {
      assert MmOk(ts, info, k, mms[k]);
    }
  }

  lemma FreedHeap(ts: Tables, info: Infos, heap: seq<Id>, region: set<Id>, m: nat, mm: Mm, ts': Tables)
    requires Wf(ts, info) && HeapOk(ts, heap, region) && MmOk(ts, info, m, mm)
    requires ts' == map x | x in ts && info[x].owner != m :: ts[x]
    ensures HeapOk(ts', heap + mm.allocs + [mm.root], region)
  {
    var freed := mm.allocs + [mm.root];
    forall i | 0 <= i < |freed|
      ensures freed[i] in ts && info[freed[i]].owner == m && freed[i] < LIMIT
    {
      assert i < |mm.allocs| ==> freed[i] in mm.allocs;
      assert WfTable(ts, info, freed[i]);
    }
    var all := heap + mm.allocs + [mm.root];
    assert all == heap + freed;
    forall i, j | 0 <= i < j < |freed|
      ensures freed[i] != freed[j]
    {
      assert mm.allocs[i] in mm.allocs;
    }
  }

  class TableStore {
    var ts: Tables
    ghost var info: Infos
    var heap: seq<Id>
    var mms: map<nat, Mm>
    const kroot: Id
    ghost const region: set<Id>

    /** The tables the boot code leaves, and the heap pages free for more. */
    constructor (ts: Tables, ghost info: Infos, heap: seq<Id>, kroot: Id, ghost region: set<Id>)
      requires TablesOk(ts, info, heap, map[], kroot, region)
      ensures Valid() && this.ts == ts && this.kroot == kroot && this.region == region && mms == map[]
    {
      this.ts, this.info, this.heap, this.kroot, this.region := ts, info, heap, kroot, region;
      mms := map[];
    }

    ghost predicate Valid()
      reads this
    {
      TablesOk(ts, info, heap, mms, kroot, region)
    }

    /** mm_clone_from the kernel: a new top-level table. */
    method NewMm(m: nat) returns (ok: bool)
      requires Valid() && m !in mms && m != KERNEL
      modifies this
      ensures Valid() && SameLeaves(old(ts), ts, old(info)) && Extends(old(info), info)
      ensures !ok ==> mms == old(mms) && ts == old(ts) && info == old(info)
      ensures ok <==> old(|heap|) > 0
      ensures ok ==> m in mms && mms == old(mms)[m := Mm(mms[m].root, [], 1)] &&
                     forall v: nat {:trigger LeafOf(ts, mms[m].root, v)} :: v < SPACE ==>
                           LeafOf(ts, mms[m].root, v) == LeafOf(old(ts), kroot, v)
    {
      if |heap| == 0 {
        return false;
      }
      var n := heap[0];
      NewMmOk(ts, info, heap, mms, kroot, region, m);
      forall r: Id, v: nat | r in info && info[r].home == [] && v < SPACE
        ensures LeafAt(ts[n := ts[kroot]], r, 4, v) == LeafAt(ts, r, 4, v)
      {
        NewRootWalk(ts, info, kroot, n, r, v);
      }
      forall v: nat | v < SPACE
        ensures LeafAt(ts[n := ts[kroot]], n, 4, v) == LeafAt(ts, kroot, 4, v)
      {
        NewRootWalk(ts, info, kroot, n, kroot, v);
      }
      ts := ts[n := ts[kroot]];
      info := info[n := Info(m, [], n)];
      mms := mms[m := Mm(n, [], 1)];
      heap := heap[1..];
      ok := true;
    }

    /** mmput of the last user: free the tables in allocs and the top-level table. */
    method FreeMm(m: nat)
      requires Valid() && m in mms
      modifies this
      ensures Valid() && mms == old(mms) - {m}
      ensures forall r: Id, v: nat {:trigger LeafOf(ts, r, v)} ::
                r in old(info) && old(info)[r].home == [] && old(info)[r].owner != m && v < SPACE ==>
                LeafOf(ts, r, v) == LeafOf(old(ts), r, v)
      ensures forall x :: x in old(info) && old(info)[x].owner != m ==> x in info && info[x] == old(info)[x]
    {
      assert MmOk(ts, info, m, mms[m]);
      var mm := mms[m];
      var dead := set x | x in mm.allocs + [mm.root];
      var ts' := map x | x in ts && x !in dead :: ts[x];
      assert forall x :: x in ts ==> (x in dead <==> info[x].owner == m) by {
        forall x | x in ts
          ensures x in dead <==> info[x].owner == m
        {
          assert x in mm.allocs <==> info[x].owner == m && info[x].home != [];
          assert info[x].owner == m && info[x].home == [] ==> SamePlace(info, x, mm.root);
        }
      }
      FreeMmOk(ts, info, heap, mms, kroot, region, m, ts');
      forall r: Id, v: nat | r in info && info[r].home == [] && info[r].owner != m && v < SPACE
        ensures LeafAt(ts', r, 4, v) == LeafAt(ts, r, 4, v)
      {
        DropWalk(ts, info, m, ts', r, v);
      }
      ts := ts';
      info := Without(info, m);
      heap := heap + mm.allocs + [mm.root];
      mms := mms - {m};
    }

    /** Take a page from the heap for m, fill it and hang it under table id. */
    method Link(m: nat, id: Id, i: nat, content: seq<Entry>, e: Entry) returns (n: Id)
      requires Valid() && m in mms && |heap| > 0
      requires Linkable(ts, info, id, i) && info[id].owner == m
      requires IsTable(Level(info[id]), e) && e.ppn == heap[0] && !e.ps && !e.nx
      requires EntriesOk(info[heap[0] := ChildInfo(info, id, i)], heap[0], content)
      requires forall r: Id, v: nat {:trigger LeafOf(ts, r, v)} ::
                 r in info && info[r].home == [] && Through(info, r, id, i, v) && v < SPACE &&
                 Wf(SetEntry(ts[heap[0] := content], id, i, e), info[heap[0] := ChildInfo(info, id, i)]) ==>
                 LeafOf(SetEntry(ts[heap[0] := content], id, i, e), r, v) == LeafOf(ts, r, v)
      modifies this
      ensures Valid() && Extends(old(info), info) && SameMms(old(mms), mms)
      ensures SameLeaves(old(ts), ts, old(info))
      ensures n == old(heap[0]) && heap == old(heap)[1..]
      ensures n in ts && info == old(info)[n := ChildInfo(old(info), id, i)]
      ensures ts == SetEntry(old(ts)[n := content], id, i, e)
    {
      n := heap[0];
      LinkOk(ts, info, heap, mms, kroot, region, m, id, i, content, e);
      assert MmOk(ts, info, m, mms[m]);
      LinkSame(ts, info, id, i, n, content, e);
      ts := SetEntry(ts[n := content], id, i, e);
      info := info[n := ChildInfo(info, id, i)];
      mms := mms[m := mms[m].(allocs := mms[m].allocs + [n])];
      heap := heap[1..];
    }

    /** alloc_pt_page, and hang the zeroed page under an absent entry. */
    method LinkEmpty(m: nat, id: Id, i: nat) returns (ok: bool, n: Id)
      requires Valid() && m in mms
      requires Linkable(ts, info, id, i) && info[id].owner == m && !ts[id][i].present
      modifies this
      ensures Valid() && Extends(old(info), info) && SameMms(old(mms), mms)
      ensures SameLeaves(old(ts), ts, old(info))
      ensures ok <==> old(|heap|) > 0
      ensures !ok ==> ts == old(ts) && mms == old(mms) && heap == old(heap) && info == old(info)
      ensures ok ==> n in ts && info == old(info)[n := ChildInfo(old(info), id, i)] && OnlyTable(old(ts), ts, id)
      ensures ok ==> id in ts && ts[id] == old(ts[id])[i := UserPointer(n)]
    {
      if |heap| == 0 {
        return false, 0;
      }
      ok := true;
      var content := seq(512, j => NIL);
      var e := UserPointer(heap[0]);
      EmptyEntries(info[heap[0] := ChildInfo(info, id, i)], heap[0], content);
      forall r: Id, v: nat | r in info && info[r].home == [] && Through(info, r, id, i, v) && v < SPACE &&
          Wf(SetEntry(ts[heap[0] := content], id, i, e), info[heap[0] := ChildInfo(info, id, i)])
        ensures LeafOf(SetEntry(ts[heap[0] := content], id, i, e), r, v) == LeafOf(ts, r, v)
      {
        EmptyWalk(ts, info, r, id, i, heap[0], content, e, v);
      }
      n := Link(m, id, i, content, e);
    }

    /** dup_pt_page: hang a private copy of a shared table under the same entry. */
    method LinkDup(m: nat, id: Id, i: nat) returns (ok: bool, n: Id)
      requires Valid() && m in mms
      requires Linkable(ts, info, id, i) && info[id].owner == m && IsTable(Level(info[id]), ts[id][i])
      modifies this
      ensures Valid() && Extends(old(info), info) && SameMms(old(mms), mms)
      ensures SameLeaves(old(ts), ts, old(info))
      ensures ok <==> old(|heap|) > 0
      ensures !ok ==> ts == old(ts) && mms == old(mms) && heap == old(heap) && info == old(info)
      ensures ok ==> n in ts && info == old(info)[n := ChildInfo(old(info), id, i)] && OnlyTable(old(ts), ts, id)
      ensures ok ==> id in ts && ts[id] == old(ts[id])[i := Repoint(old(ts[id][i]), n)]
    {
      if |heap| == 0 {
        return false, 0;
      }
      ok := true;
      DupEntries(ts, info, id, i, heap[0]);
      assert MmOk(ts, info, m, mms[m]);
      var content := ts[ts[id][i].ppn];
      var e := Repoint(ts[id][i], heap[0]);
      forall r: Id, v: nat | r in info && info[r].home == [] && Through(info, r, id, i, v) && v < SPACE &&
          Wf(SetEntry(ts[heap[0] := content], id, i, e), info[heap[0] := ChildInfo(info, id, i)])
        ensures LeafOf(SetEntry(ts[heap[0] := content], id, i, e), r, v) == LeafOf(ts, r, v)
      {
        DupWalk(ts, info, r, id, i, heap[0], e, v);
      }
      n := Link(m, id, i, content, e);
    }

    /** split_2m_to_4k on a 2 MiB leaf of an owned table. */
    method SplitChunk(m: nat, id: Id, i: nat, v: nat) returns (ok: bool, n: Id)
      requires Valid() && m in mms
      requires Linkable(ts, info, id, i) && info[id].owner == m && |info[id].home| == 2 && IsHuge(2, ts[id][i])
      modifies this
      ensures Valid() && Extends(old(info), info) && SameMms(old(mms), mms)
      ensures SameLeaves(old(ts), ts, old(info))
      ensures ok <==> old(|heap|) > 0
      ensures !ok ==> ts == old(ts) && mms == old(mms) && heap == old(heap) && info == old(info)
      ensures ok ==> n in ts && info == old(info)[n := ChildInfo(old(info), id, i)] && OnlyTable(old(ts), ts, id)
      ensures ok ==> id in ts && |ts[id]| == 512 && IsTable(2, ts[id][i]) && ts[id][i].ppn == n &&
                     forall j :: 0 <= j < 512 && j != i ==> ts[id][j] == old(ts[id][j])
    {
      if |heap| == 0 {
        return false, 0;
      }
      ok := true;
      var was := ts[id][i];
      var content := Split2M(was, v);
      var e := Kept(was, heap[0], false, was.us || UserWindow(v), was.cow);
      Split2MEntries(info, id, i, heap[0], was, v);
      forall r: Id, u: nat | r in info && info[r].home == [] && Through(info, r, id, i, u) && u < SPACE &&
          Wf(SetEntry(ts[heap[0] := content], id, i, e), info[heap[0] := ChildInfo(info, id, i)])
        ensures LeafOf(SetEntry(ts[heap[0] := content], id, i, e), r, u) == LeafOf(ts, r, u)
      {
        Split2MWalk(ts, info, r, id, i, heap[0], e, v, u);
      }
      n := Link(m, id, i, content, e);
    }

    /** split_l3_1g_to_l2 on a 1 GiB leaf of an owned table. */
    method SplitGiant(m: nat, id: Id, i: nat) returns (ok: bool, n: Id)
      requires Valid() && m in mms
      requires Linkable(ts, info, id, i) && info[id].owner == m && |info[id].home| == 1 && IsHuge(3, ts[id][i])
      modifies this
      ensures Valid() && Extends(old(info), info) && SameMms(old(mms), mms)
      ensures SameLeaves(old(ts), ts, old(info))
      ensures ok <==> old(|heap|) > 0
      ensures !ok ==> ts == old(ts) && mms == old(mms) && heap == old(heap) && info == old(info)
      ensures ok ==> n in ts && info == old(info)[n := ChildInfo(old(info), id, i)] && OnlyTable(old(ts), ts, id)
      ensures ok ==> id in ts && |ts[id]| == 512 && IsTable(3, ts[id][i]) && ts[id][i].ppn == n &&
                     forall j :: 0 <= j < 512 && j != i ==> ts[id][j] == old(ts[id][j])
    {
      if |heap| == 0 {
        return false, 0;
      }
      ok := true;
      var was := ts[id][i];
      var content := Split1G(was);
      var e := Kept(was, heap[0], false, was.us, false);
      Split1GEntries(info, id, i, heap[0], was);
      forall r: Id, u: nat | r in info && info[r].home == [] && Through(info, r, id, i, u) && u < SPACE &&
          Wf(SetEntry(ts[heap[0] := content], id, i, e), info[heap[0] := ChildInfo(info, id, i)])
        ensures LeafOf(SetEntry(ts[heap[0] := content], id, i, e), r, u) == LeafOf(ts, r, u)
      {
        Split1GWalk(ts, info, r, id, i, heap[0], e, u);
      }
      n := Link(m, id, i, content, e);
    }

    /** entry |= US, and RW if asked, on a table pointer. */
    method OpenPointer(m: nat, id: Id, i: nat, write: bool)
      requires Valid() && m in mms && id in ts && i < 512 && info[id].owner == m && IsTable(Level(info[id]), ts[id][i])
      modifies this`ts
      ensures Valid() && SameLeaves(old(ts), ts, info) && OnlyTable(old(ts), ts, id)
      ensures id in ts && ts[id] == old(ts[id])[i := Opened(old(ts[id][i]), write)]
    {
      TableShape(ts, info, heap, mms, kroot, region, id);
      var e := Opened(ts[id][i], write);
      hide TablesOk, SameLeaves, Wf, Opened;
      OpenedFlags(ts[id][i], write);
      FlagStep(ts, info, heap, mms, kroot, region, m, id, i, e);
      ts := SetEntry(ts, id, i, e);
    }

    /** One level of mm_map_user_page_locked: a table of m's own for the next level.
        rc: 0 done, 1 no page for an absent level, 3 no page for a copy. */
    method Descend(m: nat, id: Id, lvl: nat, v: nat) returns (rc: nat, c: Id)
      requires Valid() && m in mms && 2 <= lvl <= 4 && Own(info, m, id, v, 4 - lvl)
      requires !IsHuge(lvl, ts[id][Idx(lvl, v)])
      modifies this
      ensures Valid() && Extends(old(info), info) && SameMms(old(mms), mms) && SameLeaves(old(ts), ts, old(info))
      ensures rc == 0 ==>
                c in ts && Own(info, m, c, v, 5 - lvl) && OpenTo(ts, id, Idx(lvl, v), c, true) &&
                IsTable(lvl, ts[id][Idx(lvl, v)])
      ensures OnlyTable(old(ts), ts, id) && id in ts && |ts[id]| == 512
      ensures (rc == 0 || rc == 1 || rc == 3) && (rc != 0 ==> |heap| == 0)
    {
      assert MmOk(ts, info, m, mms[m]);
      NextTable(ts, info, m, mms[m], id, lvl, v);
      PathSnoc(v, info[id].home);
      var i := Idx(lvl, v);
      if !ts[id][i].present {
        var ok;
        ok, c := LinkEmpty(m, id, i);
        rc := if ok then 0 else 1;
      } else {
        rc, c := DescendShared(m, id, lvl, v);
      }
    }

    /** The entry is present: copy a table that m does not own, then open the pointer. */
    method DescendShared(m: nat, id: Id, lvl: nat, v: nat) returns (rc: nat, c: Id)
      requires Valid() && m in mms && 2 <= lvl <= 4 && Own(info, m, id, v, 4 - lvl)
      requires IsTable(lvl, ts[id][Idx(lvl, v)])
      modifies this
      ensures Valid() && Extends(old(info), info) && SameMms(old(mms), mms) && SameLeaves(old(ts), ts, old(info))
      ensures rc == 0 ==>
                c in ts && Own(info, m, c, v, 5 - lvl) && OpenTo(ts, id, Idx(lvl, v), c, true) &&
                IsTable(lvl, ts[id][Idx(lvl, v)])
      ensures OnlyTable(old(ts), ts, id) && id in ts && |ts[id]| == 512
      ensures (rc == 0 || rc == 1 || rc == 3) && (rc != 0 ==> |heap| == 0)
    {
      assert MmOk(ts, info, m, mms[m]);
      NextTable(ts, info, m, mms[m], id, lvl, v);
      PathSnoc(v, info[id].home);
      var i := Idx(lvl, v);
      c := ts[id][i].ppn;
      assert c < LIMIT; // pt_page_pa_ok
      ghost var ts0, info0 := ts, info;
      if c !in mms[m].allocs {
        var ok;
        ok, c := LinkDup(m, id, i);
        if !ok {
          return 3, 0;
        }
      }
      ghost var ts1 := ts;
      OpenPointer(m, id, i, true);
      SameLeavesTrans(ts0, ts1, ts, info0, info);
      rc := 0;
    }

    /** Break up a huge leaf at level 3 or 2 that lies on m's own path. */
    method BreakHuge(m: nat, id: Id, lvl: nat, v: nat) returns (ok: bool)
      requires Valid() && m in mms && 2 <= lvl <= 3 && Own(info, m, id, v, 4 - lvl)
      modifies this
      ensures Valid() && Extends(old(info), info) && SameMms(old(mms), mms) && SameLeaves(old(ts), ts, old(info))
      ensures OnlyTable(old(ts), ts, id) && id in ts && |ts[id]| == 512
      ensures OffPath(old(ts), ts, old(info), m, v)
      ensures ok ==> !IsHuge(lvl, ts[id][Idx(lvl, v)])
      ensures ok ==> ts[id][Idx(lvl, v)].present == old(ts[id][Idx(lvl, v)].present)
      ensures ok && old(IsHuge(lvl, ts[id][Idx(lvl, v)])) ==>
                ts[id][Idx(lvl, v)].ppn in info && info[ts[id][Idx(lvl, v)].ppn].owner == m
      ensures !ok ==> |heap| == 0
      ensures old(!IsHuge(lvl, ts[id][Idx(lvl, v)])) ==>
                ok && ts == old(ts) && mms == old(mms) && heap == old(heap) && info == old(info)
    {
      assert MmOk(ts, info, m, mms[m]);
      NextTable(ts, info, m, mms[m], id, lvl, v);
      var i := Idx(lvl, v);
      var n;
      ok := true;
      if IsHuge(lvl, ts[id][i]) {
        if lvl == 3 {
          ok, n := SplitGiant(m, id, i);
        } else {
          ok, n := SplitChunk(m, id, i, v);
        }
        if ok {
          OffPathStep(old(ts), ts, old(info), m, v, id, lvl);
        }
      }
    }

    /** The table walk of mm_map_user_page_locked: afterwards the whole path to page v
        is m's own and open to user writes, and no leaf of any root has changed.
        The error codes are those of the source; every one means the heap ran out. */
    method InstallPath(m: nat, v: nat) returns (rc: int, l3: Id, l2: Id, l1: Id)
      requires Valid() && m in mms && v < LIMIT
      modifies this
      ensures Valid() && Extends(old(info), info) && SameMms(old(mms), mms) && SameLeaves(old(ts), ts, old(info))
      ensures rc == 0 ==> Own(info, m, l1, v, 3) && l1 in ts
      ensures rc == 0 ==>
                OpenTo(ts, mms[m].root, Idx(4, v), l3, true) && OpenTo(ts, l3, Idx(3, v), l2, true) &&
                OpenTo(ts, l2, Idx(2, v), l1, true)
      ensures rc == 0 ==> IsTable(3, ts[l3][Idx(3, v)]) && IsTable(2, ts[l2][Idx(2, v)])
      ensures rc in {0, -3, -5, -6, -7, -9, -10, -11, -13} && (rc != 0 ==> |heap| == 0)
    {
      l3, l2, l1 := 0, 0, 0;
      ghost var ts0, info0 := ts, info;
      assert MmOk(ts, info, m, mms[m]);
      var root := mms[m].root;
      var code;
      code, l3 := Descend(m, root, 4, v);
      if code != 0 {
        return (if code == 1 then -3 else -5), l3, l2, l1;
      }
      ghost var ts1, info1 := ts, info;
      rc, l2 := DescendLevel(m, l3, 3, v);
      SameLeavesTrans(ts0, ts1, ts, info0, info1);
      if rc != 0 {
        return;
      }
      ghost var ts2, info2 := ts, info;
      rc, l1 := DescendLevel(m, l2, 2, v);
      SameLeavesTrans(ts0, ts2, ts, info0, info2);
    }

    /** Split, then descend, at level 3 (codes -6, -7, -9) or 2 (-10, -11, -13). */
    method DescendLevel(m: nat, id: Id, lvl: nat, v: nat) returns (rc: int, c: Id)
      requires Valid() && m in mms && 2 <= lvl <= 3 && Own(info, m, id, v, 4 - lvl)
      modifies this
      ensures Valid() && Extends(old(info), info) && SameMms(old(mms), mms) && SameLeaves(old(ts), ts, old(info))
      ensures rc == 0 ==>
                c in ts && Own(info, m, c, v, 5 - lvl) && OpenTo(ts, id, Idx(lvl, v), c, true) &&
                IsTable(lvl, ts[id][Idx(lvl, v)])
      ensures OnlyTable(old(ts), ts, id) && id in ts && |ts[id]| == 512
      ensures rc == 0 || rc in (if lvl == 3 then {-6, -7, -9} else {-10, -11, -13})
      ensures rc != 0 ==> |heap| == 0
    {
      var base: int := if lvl == 3 then 6 else 10;
      ghost var ts0, info0 := ts, info;
      var ok := BreakHuge(m, id, lvl, v);
      if !ok {
        return -base, 0;
      }
      ghost var ts1, info1 := ts, info;
      var code;
      code, c := Descend(m, id, lvl, v);
      SameLeavesTrans(ts0, ts1, ts, info0, info1);
      rc := if code == 0 then 0 else -base - code;
    }
  }
}
