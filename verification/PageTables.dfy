/**
Four-level x86-64 page tables as core/mm.c sees them: table pages named by their
page number, 512 entries each, walked by the hardware from a root. A table page
belongs to the kernel or to one address space; address spaces share the kernel's
tables until they need their own copy.
*/
module PageTables {
  import opened Basics

  type Id = nat

  /** MMIO_IDENTITY_LIMIT (4 GiB) in pages. */
  const LIMIT: nat := 0x10_0000
  /** The first user page, VA 0x200000. */
  const USER_LO: nat := 0x200

  /** A page-table entry: the address field as a page number, and the flag bits. */
  datatype Entry = Entry(ppn: nat, present: bool, rw: bool, us: bool, pwt: bool, pcd: bool,
                         accessed: bool, dirty: bool, ps: bool, glob: bool,
                         reserved: bool, cow: bool, owned: bool, nx: bool)

  const NIL: Entry := Entry(0, false, false, false, false, false, false, false, false, false, false, false, false,
                            false)

  type Tables = map<Id, seq<Entry>>

  // ---------------------------------------------------------------- indices

  /** The index that level lvl uses for page v. */
  function Idx(lvl: nat, v: nat): (i: nat)
    requires 1 <= lvl <= 4
    ensures i < 512
  {
    if lvl == 4 then v / 0x800_0000 % 512
    else if lvl == 3 then v / 0x4_0000 % 512
    else if lvl == 2 then v / 512 % 512
    else v % 512
  }

  /** The first k indices of the path to page v. */
  function Path(v: nat, k: nat): (p: seq<nat>)
    requires k <= 4
    ensures |p| == k
  {
    if k == 0 then [] else Path(v, k - 1) + [Idx(5 - k, v)]
  }

  /** Pages of the 48-bit address space. */
  const SPACE: nat := 0x10_0000_0000

  lemma PathInjective(u: nat, v: nat)
    requires u < SPACE && v < SPACE
    requires Path(u, 3) == Path(v, 3) && Idx(1, u) == Idx(1, v)
    ensures u == v
  {
    PathLast(u, v, 3);
    PathLast(u, v, 2);
    PathLast(u, v, 1);
    Recompose(u);
    Recompose(v);
  }

  lemma Recompose(v: nat)
    requires v < SPACE
    ensures v == Idx(4, v) * 0x800_0000 + Idx(3, v) * 0x4_0000 + Idx(2, v) * 512 + Idx(1, v)
  {
    var a := v / 512;
    var b := a / 512;
    var c := b / 512;
    assert v / 0x4_0000 == b && v / 0x800_0000 == c;
    assert c < 512;
  }

  lemma PathLast(u: nat, v: nat, k: nat)
    requires 1 <= k <= 4
    ensures Path(u, k) == Path(v, k) <==> Path(u, k - 1) == Path(v, k - 1) && Idx(5 - k, u) == Idx(5 - k, v)
  {
    if Path(u, k) == Path(v, k) {
      assert Path(u, k)[..k - 1] == Path(u, k - 1);
      assert Path(v, k)[..k - 1] == Path(v, k - 1);
      assert Path(u, k)[k - 1] == Path(v, k)[k - 1];
    }
  }

  // ---------------------------------------------------------- hardware walk

  /** The entry names a table of the next level. */
  predicate IsTable(lvl: nat, e: Entry) {
    e.present && (lvl == 4 || ((lvl == 3 || lvl == 2) && !e.ps))
  }

  /** The entry maps 1 GiB (level 3) or 2 MiB (level 2) at once. */
  predicate IsHuge(lvl: nat, e: Entry) {
    e.present && e.ps && (lvl == 3 || lvl == 2)
  }

  function Span(lvl: nat): nat {
    if lvl == 3 then 0x4_0000 else if lvl == 2 then 512 else 1
  }

  /** The frame that a huge leaf gives to page v. */
  function HugePpn(lvl: nat, e: Entry, v: nat): nat {
    e.ppn - e.ppn % Span(lvl) + v % Span(lvl)
  }

  /** What the hardware finds for page v below table id: the leaf entry with the
      page's own frame number, or nothing. */
  function LeafAt(ts: Tables, id: Id, lvl: nat, v: nat): Option<Entry>
    requires 1 <= lvl <= 4
    decreases lvl, v
  {
    if id !in ts || |ts[id]| != 512 then None
    else
      var e := ts[id][Idx(lvl, v)];
      if !e.present then None
      else if lvl == 1 then Some(e)
      else if IsHuge(lvl, e) then Some(e.(ppn := HugePpn(lvl, e, v)))
      else LeafAt(ts, e.ppn, lvl - 1, v)
  }

  /** The walk grants user access, and write access when asked: every level's bit. */
  predicate PathAllows(ts: Tables, id: Id, lvl: nat, v: nat, write: bool)
    requires 1 <= lvl <= 4
    decreases lvl, v
  {
    id in ts && |ts[id]| == 512 &&
    var e := ts[id][Idx(lvl, v)];
    e.present && e.us && (write ==> e.rw) &&
    (lvl == 1 || IsHuge(lvl, e) || PathAllows(ts, e.ppn, lvl - 1, v, write))
  }

  /** The part of a leaf that reference counting and copy-on-write depend on. */
  datatype Leaf = Leaf(ppn: nat, rw: bool, cow: bool, owned: bool)

  function Abs(e: Option<Entry>): Option<Leaf> {
    match e
    case None => None
    case Some(e) => Some(Leaf(e.ppn, e.rw, e.cow, e.owned))
  }

  function LeafOf(ts: Tables, root: Id, v: nat): Option<Leaf> {
    Abs(LeafAt(ts, root, 4, v))
  }

  // ----------------------------------------------------------- ownership

  const KERNEL: nat := 0

  /** Who a table belongs to, where in the tree it hangs, and under which table. */
  datatype Info = Info(owner: nat, home: seq<nat>, parent: Id)

  type Infos = map<Id, Info>

  ghost function Level(inf: Info): (lvl: nat)
    ensures 1 <= lvl <= 4
  {
    if |inf.home| <= 3 then 4 - |inf.home| else 1
  }

  /** First page of the region that an entry of a table covers. */
  ghost predicate InWindow(home: seq<nat>, i: nat) {
    if |home| == 0 then i == 0 else home[0] == 0 && (if |home| == 1 then i < 4 else home[1] < 4)
  }

  ghost predicate WfEntry(info: Infos, id: Id, i: nat, e: Entry)
    requires id in info
  {
    var inf := info[id];
    var lvl := Level(inf);
    (IsTable(lvl, e) ==>
      e.ppn in info && info[e.ppn].home == inf.home + [i] &&
      (info[e.ppn].owner == inf.owner || info[e.ppn].owner == KERNEL)) &&
    (lvl == 4 && e.present ==> !e.ps) &&
    (lvl >= 2 && e.present ==> !e.nx) &&
    (IsHuge(lvl, e) ==> !e.owned && !e.cow && (InWindow(inf.home, i) ==>
                                               e.ppn - e.ppn % Span(lvl) + Span(lvl) <= LIMIT)) &&
    (lvl == 1 && (e.owned || e.cow) ==> e.present && e.us && inf.owner != KERNEL) &&
    (lvl == 1 && e.owned ==> e.ppn < LIMIT && InWindow(inf.home, i))
  }

  ghost predicate EntriesOk(info: Infos, id: Id, content: seq<Entry>)
    requires id in info && |info[id].home| <= 3
  {
    |content| == 512 &&
    forall i {:trigger WfEntry(info, id, i, content[i])} :: 0 <= i < 512 ==> WfEntry(info, id, i, content[i])
  }

  /** A table below the root hangs under a table of the same owner. */
  ghost predicate ParentOk(ts: Tables, info: Infos, id: Id)
    requires id in info && |info[id].home| <= 3
  {
    var h, p := info[id].home, info[id].parent;
    h != [] ==>
      p in ts && p in info && info[p].owner == info[id].owner && info[p].home == h[..|h| - 1] &&
      h[|h| - 1] < 512 && |ts[p]| == 512 &&
      IsTable(5 - |h|, ts[p][h[|h| - 1]]) && ts[p][h[|h| - 1]].ppn == id
  }

  ghost predicate WfTable(ts: Tables, info: Infos, id: Id)
    requires id in ts && id in info
  {
    id < LIMIT && |info[id].home| <= 3 && EntriesOk(info, id, ts[id]) && ParentOk(ts, info, id)
  }

  /** One table per owner and place. */
  ghost predicate SamePlace(info: Infos, a: Id, b: Id) {
    a in info && b in info && info[a].owner == info[b].owner && info[a].home == info[b].home
  }

  ghost predicate Distinct(info: Infos) {
    forall a, b {:trigger SamePlace(info, a, b)} :: SamePlace(info, a, b) ==> a == b
  }

  ghost predicate Shaped(ts: Tables, info: Infos) {
    info.Keys == ts.Keys && forall id :: id in ts ==> |ts[id]| == 512 && |info[id].home| <= 3
  }

  ghost predicate Wf(ts: Tables, info: Infos) {
    Shaped(ts, info) && Distinct(info) &&
    forall id {:trigger WfTable(ts, info, id)} :: id in ts ==> WfTable(ts, info, id)
  }

  // ------------------------------------------------ walks under table changes

  /** Tables that a walk for page v from a table of this owner may pass. */
  ghost predicate OnPath(inf: Info, owner: nat, v: nat) {
    |inf.home| <= 3 && (inf.owner == owner || inf.owner == KERNEL) && inf.home == Path(v, |inf.home|)
  }

  /** The two table sets answer alike at page v, from depth k of its path down. */
  ghost predicate Agree(ts: Tables, ts': Tables, info: Infos, owner: nat, v: nat, k: nat)
    requires Shaped(ts, info)
  {
    forall x {:trigger OnPath(info[x], owner, v)} ::
      x in ts && OnPath(info[x], owner, v) && |info[x].home| >= k ==>
      x in ts' && |ts'[x]| == 512 && ts'[x][Idx(Level(info[x]), v)] == ts[x][Idx(Level(info[x]), v)]
  }

  /** A walk only depends on the entries of the tables on its path. */
  lemma {:induction false} WalkFrame(ts: Tables, ts': Tables, info: Infos, id: Id, owner: nat, v: nat)
    requires Wf(ts, info) && id in ts && OnPath(info[id], owner, v)
    requires Agree(ts, ts', info, owner, v, |info[id].home|)
    ensures LeafAt(ts', id, Level(info[id]), v) == LeafAt(ts, id, Level(info[id]), v)
    decreases Level(info[id])
  {
    var lvl := Level(info[id]);
    assert WfTable(ts, info, id);
    var i := Idx(lvl, v);
    var e := ts[id][i];
    assert WfEntry(info, id, i, e);
    if IsTable(lvl, e) {
      var c := e.ppn;
      PathSnoc(v, info[id].home);
      WalkFrame(ts, ts', info, c, owner, v);
    }
  }

  lemma PathSnoc(v: nat, home: seq<nat>)
    requires |home| <= 3 && home == Path(v, |home|)
    ensures home + [Idx(4 - |home|, v)] == Path(v, |home| + 1)
  {
  }

  /** An owned table on the path to v is where the walk for v arrives. */
  lemma {:induction false} Reach(ts: Tables, info: Infos, root: Id, id: Id, v: nat)
    requires Wf(ts, info) && id in ts && root in ts
    requires info[root].home == [] && info[id].owner == info[root].owner
    requires info[id].home == Path(v, |info[id].home|)
    ensures LeafAt(ts, root, 4, v) == LeafAt(ts, id, Level(info[id]), v)
    decreases |info[id].home|
  {
    assert WfTable(ts, info, id);
    var h := info[id].home;
    if h == [] {
      assert SamePlace(info, root, id);
    } else {
      var p := info[id].parent;
      var k := |h| - 1;
      assert h[..k] == Path(v, k) && h[k] == Idx(4 - k, v) by {
        assert Path(v, k + 1) == Path(v, k) + [Idx(4 - k, v)];
      }
      Reach(ts, info, root, p, v);
    }
  }

  // ----------------------------------------------------------- table updates

  function SetEntry(ts: Tables, id: Id, i: nat, e: Entry): Tables
    requires id in ts && i < |ts[id]|
  {
    ts[id := ts[id][i := e]]
  }

  /** A new entry that does not cut off a table of the same owner keeps the tree. */
  lemma WfSetEntry(ts: Tables, info: Infos, id: Id, i: nat, e: Entry)
    requires Wf(ts, info) && id in ts && i < 512 && WfTable(ts, info, id) && WfEntry(info, id, i, e)
    requires var was := ts[id][i]; var lvl := Level(info[id]);
             IsTable(lvl, was) && was.ppn in info && info[was.ppn].owner == info[id].owner ==>
                   IsTable(lvl, e) && e.ppn == was.ppn
    ensures Wf(SetEntry(ts, id, i, e), info)
  {
    var ts' := SetEntry(ts, id, i, e);
    forall x | x in ts'
      ensures WfTable(ts', info, x)
    {
      assert WfTable(ts, info, x);
      assert EntriesOk(info, x, ts'[x]);
      ParentKept(ts, info, id, i, e, x);
    }
  }

  lemma ParentKept(ts: Tables, info: Infos, id: Id, i: nat, e: Entry, x: Id)
    requires id in ts && id in info && x in info && |info[x].home| <= 3 && |info[id].home| <= 3
    requires i < 512 && |ts[id]| == 512 && ParentOk(ts, info, x)
    requires var was := ts[id][i]; var lvl := Level(info[id]);
             IsTable(lvl, was) && was.ppn in info && info[was.ppn].owner == info[id].owner ==>
                   IsTable(lvl, e) && e.ppn == was.ppn
    ensures ParentOk(SetEntry(ts, id, i, e), info, x)
  {
  }

  /** The place of a table hung under entry i of table id. */
  ghost function ChildInfo(info: Infos, id: Id, i: nat): Info
    requires id in info
  {
    Info(info[id].owner, info[id].home + [i], id)
  }

  /** Entry i of table id can take a new table of the same owner. */
  ghost predicate Linkable(ts: Tables, info: Infos, id: Id, i: nat)
    requires Wf(ts, info)
  {
    id in ts && i < 512 && |info[id].home| <= 2 && WfTable(ts, info, id) && WfEntry(info, id, i, ts[id][i]) &&
    (IsTable(Level(info[id]), ts[id][i]) ==> info[ts[id][i].ppn].owner != info[id].owner)
  }

  lemma PlaceFree(ts: Tables, info: Infos, id: Id, i: nat, x: Id)
    requires Wf(ts, info) && Linkable(ts, info, id, i) && x in ts
    ensures !(info[x].owner == info[id].owner && info[x].home == info[id].home + [i])
  {
    assert WfTable(ts, info, x);
    var h := info[id].home + [i];
    assert h[..|h| - 1] == info[id].home;
    if info[x].owner == info[id].owner && info[x].home == h {
      assert SamePlace(info, info[x].parent, id);
    }
  }

  /** Knowing more tables does not spoil an entry. */
  lemma EntryMono(info: Infos, info': Infos, x: Id, j: nat, e: Entry)
    requires x in info && |info[x].home| <= 3
    requires forall y :: y in info ==> y in info' && info'[y] == info[y]
    requires WfEntry(info, x, j, e)
    ensures WfEntry(info', x, j, e)
  {
  }

  lemma LinkOldTable(ts: Tables, info: Infos, id: Id, i: nat, n: Id, content: seq<Entry>, e: Entry, x: Id)
    requires Wf(ts, info) && Linkable(ts, info, id, i) && n !in ts && x in ts
    requires IsTable(Level(info[id]), e) && e.ppn == n
    requires WfEntry(info[n := ChildInfo(info, id, i)], id, i, e)
    ensures WfTable(SetEntry(ts[n := content], id, i, e), info[n := ChildInfo(info, id, i)], x)
  {
    var info' := info[n := ChildInfo(info, id, i)];
    var ts' := SetEntry(ts[n := content], id, i, e);
    assert WfTable(ts, info, x);
    forall j | 0 <= j < 512
      ensures WfEntry(info', x, j, ts'[x][j])
    {
      EntryMono(info, info', x, j, ts[x][j]);
    }
    LinkOldParent(ts, info, id, i, n, content, e, x);
  }

  lemma LinkOldParent(ts: Tables, info: Infos, id: Id, i: nat, n: Id, content: seq<Entry>, e: Entry, x: Id)
    requires id in ts && id in info && x in info && |info[x].home| <= 3 && |info[id].home| <= 3
    requires i < 512 && |ts[id]| == 512 && ParentOk(ts, info, x) && n !in ts && n !in info
    requires IsTable(Level(info[id]), ts[id][i]) ==>
               ts[id][i].ppn in info && info[ts[id][i].ppn].owner != info[id].owner
    ensures ParentOk(SetEntry(ts[n := content], id, i, e), info[n := ChildInfo(info, id, i)], x)
  {
  }

  lemma DistinctAdd(info: Infos, n: Id, inf: Info)
    requires Distinct(info) && n !in info
    requires forall x :: x in info ==> !(info[x].owner == inf.owner && info[x].home == inf.home)
    ensures Distinct(info[n := inf])
  {
    var info' := info[n := inf];
    forall a, b | SamePlace(info', a, b)
      ensures a == b
    {
      assert a != n && b != n ==> SamePlace(info, a, b);
    }
  }

  lemma LinkEntry(info: Infos, id: Id, i: nat, n: Id, e: Entry)
    requires id in info && n !in info && |info[id].home| <= 2 && IsTable(Level(info[id]), e) && e.ppn == n
    requires !e.ps && !e.nx
    ensures WfEntry(info[n := ChildInfo(info, id, i)], id, i, e)
  {
  }

  lemma LinkNewTable(ts: Tables, info: Infos, id: Id, i: nat, n: Id, content: seq<Entry>, e: Entry)
    requires id in ts && id in info && i < 512 && |ts[id]| == 512 && |info[id].home| <= 2
    requires n !in ts && n !in info && n < LIMIT && IsTable(Level(info[id]), e) && e.ppn == n
    requires EntriesOk(info[n := ChildInfo(info, id, i)], n, content)
    ensures WfTable(SetEntry(ts[n := content], id, i, e), info[n := ChildInfo(info, id, i)], n)
  {
    var h := info[id].home + [i];
    assert h[..|h| - 1] == info[id].home;
  }

  /** Hang a new table under an entry that named none of this owner's tables. */
  lemma WfLink(ts: Tables, info: Infos, id: Id, i: nat, n: Id, content: seq<Entry>, e: Entry)
    requires Wf(ts, info) && Linkable(ts, info, id, i)
    requires n !in ts && n < LIMIT
    requires IsTable(Level(info[id]), e) && e.ppn == n && !e.ps && !e.nx
    requires EntriesOk(info[n := ChildInfo(info, id, i)], n, content)
    ensures Wf(SetEntry(ts[n := content], id, i, e), info[n := ChildInfo(info, id, i)])
  {
    var info' := info[n := ChildInfo(info, id, i)];
    var ts' := SetEntry(ts[n := content], id, i, e);
    LinkEntry(info, id, i, n, e);
    LinkNewTable(ts, info, id, i, n, content, e);
    forall x | x in ts'
      ensures WfTable(ts', info', x)
    {
      if x != n { LinkOldTable(ts, info, id, i, n, content, e, x); }
    }
    forall x | x in info
      ensures !(info[x].owner == info[id].owner && info[x].home == info[id].home + [i])
    {
      PlaceFree(ts, info, id, i, x);
    }
    DistinctAdd(info, n, ChildInfo(info, id, i));
  }

  /** Changing one entry of a table leaves every walk alone that does not use it. */
  lemma WalkSetEntry(ts: Tables, info: Infos, root: Id, id: Id, i: nat, e: Entry, v: nat)
    requires Wf(ts, info) && id in ts && root in ts && info[root].home == [] && i < 512
    requires info[id].owner != KERNEL
    requires !(info[id].owner == info[root].owner && info[id].home == Path(v, |info[id].home|) &&
               Idx(Level(info[id]), v) == i)
    ensures LeafAt(SetEntry(ts, id, i, e), root, 4, v) == LeafAt(ts, root, 4, v)
  {
    WalkFrame(ts, SetEntry(ts, id, i, e), info, root, info[root].owner, v);
  }

  /** A table that nothing names changes no walk. */
  lemma WalkAddTable(ts: Tables, info: Infos, root: Id, n: Id, content: seq<Entry>, v: nat)
    requires Wf(ts, info) && root in ts && info[root].home == [] && n !in ts
    ensures LeafAt(ts[n := content], root, 4, v) == LeafAt(ts, root, 4, v)
  {
    WalkFrame(ts, ts[n := content], info, root, info[root].owner, v);
  }

  /** The walk for v, started at this root, goes through entry i of table id. */
  ghost predicate Through(info: Infos, root: Id, id: Id, i: nat, v: nat)
    requires root in info && id in info && |info[id].home| <= 3
  {
    info[id].owner == info[root].owner && info[id].home == Path(v, |info[id].home|) && Idx(Level(info[id]), v) == i
  }

  /** Linking a table changes no walk that does not pass the linked entry. */
  lemma LinkElsewhere(ts: Tables, info: Infos, root: Id, id: Id, i: nat, n: Id, content: seq<Entry>, e: Entry, v: nat)
    requires Wf(ts, info) && id in ts && root in ts && info[root].home == [] && i < 512 && n !in ts
    requires WfTable(ts, info, id) && info[id].owner != KERNEL && !Through(info, root, id, i, v)
    ensures LeafAt(SetEntry(ts[n := content], id, i, e), root, 4, v) == LeafAt(ts, root, 4, v)
  {
    WalkFrame(ts, SetEntry(ts[n := content], id, i, e), info, root, info[root].owner, v);
  }

  /** Walks below the linked entry see the tables they saw before. */
  lemma LinkBelow(ts: Tables, info: Infos, id: Id, i: nat, n: Id, content: seq<Entry>, e: Entry, c: Id, owner: nat,
                  v: nat)
    requires Wf(ts, info) && id in ts && i < 512 && n !in ts && c in ts
    requires WfTable(ts, info, id) && WfTable(ts, info, c)
    requires OnPath(info[c], owner, v) && |info[c].home| > |info[id].home|
    ensures LeafAt(SetEntry(ts[n := content], id, i, e), c, Level(info[c]), v) == LeafAt(ts, c, Level(info[c]), v)
  {
    WalkFrame(ts, SetEntry(ts[n := content], id, i, e), info, c, owner, v);
  }

  /** Where a walk through the linked entry arrives, before and after. */
  lemma LinkThrough(ts: Tables, ts': Tables, info: Infos, root: Id, id: Id, i: nat, n: Id, v: nat)
    requires Wf(ts, info) && id in ts && root in ts && info[root].home == [] && n !in ts && |info[id].home| <= 2
    requires Through(info, root, id, i, v)
    requires n in ts' && root in ts' && Wf(ts', info[n := ChildInfo(info, id, i)])
    ensures LeafAt(ts, root, 4, v) == LeafAt(ts, id, Level(info[id]), v)
    ensures LeafAt(ts', root, 4, v) == LeafAt(ts', n, Level(info[id]) - 1, v)
  {
    PathSnoc(v, info[id].home);
    Reach(ts, info, root, id, v);
    Reach(ts', info[n := ChildInfo(info, id, i)], root, n, v);
  }

  lemma HugeStep(ts: Tables, id: Id, lvl: nat, v: nat)
    requires lvl == 2 || lvl == 3
    requires id in ts && |ts[id]| == 512 && IsHuge(lvl, ts[id][Idx(lvl, v)])
    ensures var e := ts[id][Idx(lvl, v)]; LeafAt(ts, id, lvl, v) == Some(e.(ppn := HugePpn(lvl, e, v)))
  {
  }

  /** A copy of a table answers every walk as the original does. */
  lemma DupWalk(ts: Tables, info: Infos, root: Id, id: Id, i: nat, n: Id, e: Entry, v: nat)
    requires Wf(ts, info) && Linkable(ts, info, id, i) && root in ts && info[root].home == [] && n !in ts
    requires info[id].owner != KERNEL && Through(info, root, id, i, v)
    requires IsTable(Level(info[id]), ts[id][i])
    requires var content := ts[ts[id][i].ppn]; var info' := info[n := ChildInfo(info, id, i)];
             Wf(SetEntry(ts[n := content], id, i, e), info')
    ensures LeafAt(SetEntry(ts[n := ts[ts[id][i].ppn]], id, i, e), root, 4, v) == LeafAt(ts, root, 4, v)
  {
    var k := ts[id][i].ppn;
    var ts' := SetEntry(ts[n := ts[k]], id, i, e);
    var lvl := Level(info[id]) - 1;
    LinkThrough(ts, ts', info, root, id, i, n, v);
    PathSnoc(v, info[id].home);
    assert WfEntry(info, id, i, ts[id][i]);
    assert WfTable(ts, info, k);
    var f := ts[k][Idx(lvl, v)];
    assert WfEntry(info, k, Idx(lvl, v), f);
    if IsTable(lvl, f) {
      assert WfTable(ts, info, f.ppn);
      PathSnoc(v, info[k].home);
      LinkBelow(ts, info, id, i, n, ts[k], e, f.ppn, info[root].owner, v);
    }
  }

  /** An empty table under an absent entry still maps nothing. */
  lemma EmptyWalk(ts: Tables, info: Infos, root: Id, id: Id, i: nat, n: Id, content: seq<Entry>, e: Entry, v: nat)
    requires Wf(ts, info) && Linkable(ts, info, id, i) && root in ts && info[root].home == [] && n !in ts
    requires Through(info, root, id, i, v) && !ts[id][i].present
    requires |content| == 512 && forall j :: 0 <= j < 512 ==> content[j] == NIL
    requires Wf(SetEntry(ts[n := content], id, i, e), info[n := ChildInfo(info, id, i)])
    ensures LeafAt(SetEntry(ts[n := content], id, i, e), root, 4, v) == LeafAt(ts, root, 4, v)
  {
    LinkThrough(ts, SetEntry(ts[n := content], id, i, e), info, root, id, i, n, v);
  }

  // ------------------------------------------------------- splitting leaves

  /** The flags a split keeps: PRESENT, RW, US, PWT, PCD, GLOBAL, NX, and for a
      2 MiB leaf SOFT_COW. US is forced on in the user window. */
  function Kept(e: Entry, ppn: nat, ps: bool, us: bool, cow: bool): Entry {
    NIL.(ppn := ppn, present := e.present, rw := e.rw, us := us, pwt := e.pwt, pcd := e.pcd,
         ps := ps, glob := e.glob, cow := cow, nx := e.nx)
  }

  function UserWindow(v: nat): bool { USER_LO <= v < LIMIT }

  /** split_2m_to_4k: the 512 leaves of a 2 MiB leaf. */
  function Split2M(e: Entry, v: nat): (c: seq<Entry>)
    ensures |c| == 512
    ensures forall i :: 0 <= i < 512 ==> c[i] == Kept(e, e.ppn - e.ppn % 512 + i, false, e.us || UserWindow(v), e.cow)
  {
    seq(512, i requires 0 <= i => Kept(e, e.ppn - e.ppn % 512 + i, false, e.us || UserWindow(v), e.cow))
  }

  /** split_l3_1g_to_l2: the 512 leaves of 2 MiB of a 1 GiB leaf. */
  function Split1G(e: Entry): (c: seq<Entry>)
    ensures |c| == 512
    ensures forall i :: 0 <= i < 512 ==> c[i] == Kept(e, e.ppn - e.ppn % 0x4_0000 + i * 512, true, e.us, false)
  {
    seq(512, i requires 0 <= i => Kept(e, e.ppn - e.ppn % 0x4_0000 + i * 512, true, e.us, false))
  }

  lemma Split2MEntries(info: Infos, id: Id, i: nat, n: Id, e: Entry, v: nat)
    requires id in info && n !in info && |info[id].home| == 2 && WfEntry(info, id, i, e) && IsHuge(2, e)
    ensures EntriesOk(info[n := ChildInfo(info, id, i)], n, Split2M(e, v))
  {
    var info', c := info[n := ChildInfo(info, id, i)], Split2M(e, v);
    forall j | 0 <= j < 512
      ensures WfEntry(info', n, j, c[j])
    {
      assert !c[j].owned && !c[j].cow && !c[j].ps;
    }
  }

  lemma Split1GEntries(info: Infos, id: Id, i: nat, n: Id, e: Entry)
    requires id in info && n !in info && |info[id].home| == 1 && WfEntry(info, id, i, e) && IsHuge(3, e)
    ensures EntriesOk(info[n := ChildInfo(info, id, i)], n, Split1G(e))
  {
    var info' := info[n := ChildInfo(info, id, i)];
    var base := e.ppn - e.ppn % 0x4_0000;
    var c := Split1G(e);
    forall j | 0 <= j < 512
      ensures WfEntry(info', n, j, c[j])
    {
      AlignedChunk(e.ppn, j);
    }
  }

  lemma AlignedChunk(ppn: nat, j: nat)
    requires j < 512
    ensures var b := ppn - ppn % 0x4_0000 + j * 512;
            b % 512 == 0 && b + 512 <= ppn - ppn % 0x4_0000 + 0x4_0000
  {
    var q := ppn / 0x4_0000;
    assert ppn - ppn % 0x4_0000 == q * 0x4_0000;
    assert q * 0x4_0000 + j * 512 == (q * 512 + j) * 512;
  }

  /** A 2 MiB leaf and its split give every page the same leaf. */
  lemma Split2MWalk(ts: Tables, info: Infos, root: Id, id: Id, i: nat, n: Id, e: Entry, v0: nat, v: nat)
    requires Wf(ts, info) && Linkable(ts, info, id, i) && root in ts && info[root].home == [] && n !in ts
    requires |info[id].home| == 2 && Through(info, root, id, i, v) && IsHuge(2, ts[id][i])
    requires Wf(SetEntry(ts[n := Split2M(ts[id][i], v0)], id, i, e), info[n := ChildInfo(info, id, i)])
    ensures LeafOf(SetEntry(ts[n := Split2M(ts[id][i], v0)], id, i, e), root, v) == LeafOf(ts, root, v)
  {
    var was := ts[id][i];
    var ts' := SetEntry(ts[n := Split2M(was, v0)], id, i, e);
    LinkThrough(ts, ts', info, root, id, i, n, v);
    assert WfEntry(info, id, i, was);
    HugeStep(ts, id, 2, v);
    Split2MLeaf(ts', n, was, v0, v);
  }

  lemma Split2MLeaf(ts: Tables, n: Id, e: Entry, v0: nat, v: nat)
    requires n in ts && ts[n] == Split2M(e, v0) && e.present && !e.owned
    ensures Abs(LeafAt(ts, n, 1, v)) == Abs(Some(e.(ppn := HugePpn(2, e, v))))
  {
    assert Split2M(e, v0)[v % 512].present;
  }

  lemma Split1GLeaf(ts: Tables, n: Id, e: Entry, v: nat)
    requires n in ts && ts[n] == Split1G(e) && e.present && !e.owned && !e.cow
    ensures Abs(LeafAt(ts, n, 2, v)) == Abs(Some(e.(ppn := HugePpn(3, e, v))))
  {
    assert IsHuge(2, Split1G(e)[Idx(2, v)]);
    HugeStep(ts, n, 2, v);
    SplitOffset(e.ppn, v);
  }

  lemma SplitOffset(ppn: nat, v: nat)
    ensures var b := ppn - ppn % 0x4_0000 + Idx(2, v) * 512;
            b - b % 512 + v % 512 == ppn - ppn % 0x4_0000 + v % 0x4_0000
  {
    AlignedChunk(ppn, Idx(2, v));
    var q := v / 512;
    assert v % 0x4_0000 == (q % 512) * 512 + v % 512 by {
      var h := q / 512;
      assert q == h * 512 + q % 512;
      assert v == h * 0x4_0000 + ((q % 512) * 512 + v % 512);
    }
  }

  /** A 1 GiB leaf and its split give every page the same leaf. */
  lemma Split1GWalk(ts: Tables, info: Infos, root: Id, id: Id, i: nat, n: Id, e: Entry, v: nat)
    requires Wf(ts, info) && Linkable(ts, info, id, i) && root in ts && info[root].home == [] && n !in ts
    requires |info[id].home| == 1 && Through(info, root, id, i, v) && IsHuge(3, ts[id][i])
    requires Wf(SetEntry(ts[n := Split1G(ts[id][i])], id, i, e), info[n := ChildInfo(info, id, i)])
    ensures LeafOf(SetEntry(ts[n := Split1G(ts[id][i])], id, i, e), root, v) == LeafOf(ts, root, v)
  {
    var was := ts[id][i];
    var ts' := SetEntry(ts[n := Split1G(was)], id, i, e);
    LinkThrough(ts, ts', info, root, id, i, n, v);
    assert WfEntry(info, id, i, was);
    HugeStep(ts, id, 3, v);
    Split1GLeaf(ts', n, was, v);
  }

  /** Changing the flag bits of a table pointer leaves every walk's leaf alone. */
  lemma PointerFlagsWalk(ts: Tables, info: Infos, root: Id, id: Id, i: nat, e: Entry, v: nat)
    requires Wf(ts, info) && id in ts && root in ts && info[root].home == [] && i < 512 && WfTable(ts, info, id)
    requires info[id].owner != KERNEL
    requires IsTable(Level(info[id]), ts[id][i]) && IsTable(Level(info[id]), e) && e.ppn == ts[id][i].ppn
    requires Wf(SetEntry(ts, id, i, e), info)
    ensures LeafAt(SetEntry(ts, id, i, e), root, 4, v) == LeafAt(ts, root, 4, v)
  {
    var ts' := SetEntry(ts, id, i, e);
    if Through(info, root, id, i, v) {
      Reach(ts, info, root, id, v);
      Reach(ts', info, root, id, v);
      var c := e.ppn;
      assert WfEntry(info, id, i, ts[id][i]);
      assert WfTable(ts, info, c);
      PathSnoc(v, info[id].home);
      WalkFrame(ts, ts', info, c, info[root].owner, v);
    } else {
      WalkSetEntry(ts, info, root, id, i, e, v);
    }
  }

  // -------------------------------------------------------- writing a leaf

  /** Writing entry v of an owned last-level table is a map update on leaves. */
  lemma LeafWrite(ts: Tables, info: Infos, root: Id, id: Id, e: Entry, v: nat, r: Id, u: nat)
    requires Wf(ts, info) && id in ts && root in ts && r in ts
    requires info[root].home == [] && info[r].home == [] && info[root].owner == info[id].owner != KERNEL
    requires info[id].home == Path(v, 3) && v < SPACE && u < SPACE
    requires Wf(SetEntry(ts, id, Idx(1, v), e), info)
    ensures LeafAt(SetEntry(ts, id, Idx(1, v), e), r, 4, u) ==
            if r == root && u == v then (if e.present then Some(e) else None) else LeafAt(ts, r, 4, u)
  {
    var i := Idx(1, v);
    var ts' := SetEntry(ts, id, i, e);
    if r == root && u == v {
      Reach(ts', info, root, id, v);
    } else {
      if Through(info, r, id, i, u) {
        assert SamePlace(info, r, root);
        PathInjective(u, v);
      }
      WalkSetEntry(ts, info, r, id, i, e, u);
    }
  }

  /** All roots see the same leaves. */
  ghost predicate SameLeaves(ts: Tables, ts': Tables, info: Infos) {
    forall r: Id, v: nat {:trigger LeafOf(ts', r, v)} :: r in info && info[r].home == [] && v < SPACE ==>
      LeafOf(ts', r, v) == LeafOf(ts, r, v)
  }

  ghost predicate Extends(info: Infos, info': Infos) {
    forall x {:trigger x in info} {:trigger x in info'} :: x in info ==> x in info' && info'[x] == info[x]
  }

  // ------------------------------------------- the kernel side of a path

  /** The kernel's own table of level lvl on the path to v, if it has one. */
  function KernelTable(ts: Tables, kroot: Id, lvl: nat, v: nat): Option<Id>
    requires 1 <= lvl <= 4
    decreases 4 - lvl
  {
    if lvl == 4 then Some(kroot)
    else
      match KernelTable(ts, kroot, lvl + 1, v)
      case None => None
      case Some(k) =>
        if k in ts && |ts[k]| == 512 && IsTable(lvl + 1, ts[k][Idx(lvl + 1, v)]) then Some(ts[k][Idx(lvl + 1, v)].ppn)
        else None
  }

  /** The share baseline's entry at this level: se4, se3 or se2 of the source. */
  function ShareEntry(ts: Tables, kroot: Id, lvl: nat, v: nat): Entry
    requires 1 <= lvl <= 4
  {
    match KernelTable(ts, kroot, lvl, v)
    case None => NIL
    case Some(k) => if k in ts && |ts[k]| == 512 then ts[k][Idx(lvl, v)] else NIL
  }

  /** mm_pte_same_pt_page. */
  predicate SameTable(e: Entry, o: Entry) {
    e.present && o.present && !e.ps && !o.ps && e.ppn < LIMIT && o.ppn < LIMIT && e.ppn == o.ppn
  }

  lemma {:induction false} KernelTableFound(ts: Tables, info: Infos, kroot: Id, x: Id, lvl: nat, v: nat)
    requires Wf(ts, info) && kroot in ts && info[kroot].owner == KERNEL && info[kroot].home == []
    requires 1 <= lvl <= 4 && x in ts && info[x].owner == KERNEL && info[x].home == Path(v, 4 - lvl)
    ensures KernelTable(ts, kroot, lvl, v) == Some(x)
    decreases 4 - lvl
  {
    if lvl == 4 {
      assert SamePlace(info, kroot, x);
    } else {
      assert WfTable(ts, info, x);
      var p, k := info[x].parent, 3 - lvl;
      var h := info[x].home;
      assert h[..k] == Path(v, k) && h[k] == Idx(lvl + 1, v) by {
        assert Path(v, k + 1) == Path(v, k) + [Idx(4 - k, v)];
      }
      KernelTableFound(ts, info, kroot, p, lvl + 1, v);
    }
  }

  lemma {:induction false} KernelTableOk(ts: Tables, info: Infos, kroot: Id, lvl: nat, v: nat)
    requires Wf(ts, info) && kroot in ts && info[kroot].owner == KERNEL && info[kroot].home == []
    requires 1 <= lvl <= 4
    ensures var k := KernelTable(ts, kroot, lvl, v);
            k.Some? ==> k.value in ts && info[k.value].owner == KERNEL && info[k.value].home == Path(v, 4 - lvl)
    decreases 4 - lvl
  {
    if lvl < 4 {
      KernelTableOk(ts, info, kroot, lvl + 1, v);
      var k := KernelTable(ts, kroot, lvl + 1, v);
      if k.Some? {
        assert WfTable(ts, info, k.value);
        assert WfEntry(info, k.value, Idx(lvl + 1, v), ts[k.value][Idx(lvl + 1, v)]);
        PathSnoc(v, info[k.value].home);
      }
    }
  }

  /** A kernel table is named at its place by the kernel's own table above it. */
  lemma KernelNames(ts: Tables, info: Infos, kroot: Id, c: Id, lvl: nat, v: nat)
    requires Wf(ts, info) && kroot in ts && info[kroot].owner == KERNEL && info[kroot].home == []
    requires 2 <= lvl <= 4 && c in ts && info[c].owner == KERNEL && info[c].home == Path(v, 5 - lvl)
    ensures var se := ShareEntry(ts, kroot, lvl, v); se.present && !se.ps && se.ppn == c && !se.nx
  {
    assert WfTable(ts, info, c);
    var p, k, i := info[c].parent, 4 - lvl, Idx(lvl, v);
    assert info[c].home[..k] == Path(v, k) && info[c].home[k] == i by {
      assert Path(v, k + 1) == Path(v, k) + [Idx(4 - k, v)];
    }
    KernelTableFound(ts, info, kroot, p, lvl, v);
    assert WfTable(ts, info, p);
    assert WfEntry(info, p, i, ts[p][i]);
  }

  /** What the kernel's entry at a place names is a kernel table. */
  lemma ShareNames(ts: Tables, info: Infos, kroot: Id, lvl: nat, v: nat)
    requires Wf(ts, info) && kroot in ts && info[kroot].owner == KERNEL && info[kroot].home == []
    requires 2 <= lvl <= 4 && IsTable(lvl, ShareEntry(ts, kroot, lvl, v))
    ensures var se := ShareEntry(ts, kroot, lvl, v); se.ppn in info && info[se.ppn].owner == KERNEL && !se.nx
  {
    KernelTableOk(ts, info, kroot, lvl, v);
    var kt := KernelTable(ts, kroot, lvl, v);
    assert WfTable(ts, info, kt.value);
    assert WfEntry(info, kt.value, Idx(lvl, v), ts[kt.value][Idx(lvl, v)]);
  }

  /** A table pointer on m's own path leads to a kernel table exactly when it
      names the same table as the share baseline does at that place. */
  lemma SharedIff(ts: Tables, info: Infos, kroot: Id, m: nat, id: Id, lvl: nat, v: nat)
    requires Wf(ts, info) && kroot in ts && info[kroot].owner == KERNEL && info[kroot].home == []
    requires 2 <= lvl <= 4 && m != KERNEL && id in ts && info[id].owner == m && info[id].home == Path(v, 4 - lvl)
    requires IsTable(lvl, ts[id][Idx(lvl, v)])
    ensures var e := ts[id][Idx(lvl, v)];
            e.ppn in ts && e.ppn < LIMIT && (info[e.ppn].owner == KERNEL <==>
                                             SameTable(e, ShareEntry(ts, kroot, lvl, v)))
    ensures var e := ts[id][Idx(lvl, v)]; var se := ShareEntry(ts, kroot, lvl, v);
            SameTable(e, se) ==> e.nx == se.nx
  {
    var i := Idx(lvl, v);
    var e := ts[id][i];
    assert WfTable(ts, info, id);
    assert WfEntry(info, id, i, e);
    assert WfTable(ts, info, e.ppn);
    PathSnoc(v, info[id].home);
    hide Wf, ShareEntry;
    if info[e.ppn].owner == KERNEL {
      KernelNames(ts, info, kroot, e.ppn, lvl, v);
    }
    if SameTable(e, ShareEntry(ts, kroot, lvl, v)) {
      ShareNames(ts, info, kroot, lvl, v);
    }
  }
}
