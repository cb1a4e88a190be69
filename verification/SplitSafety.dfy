/**
Where mm_split_huge_leaf_for_va may split. The new table belongs to the address space whatever
table it hangs under, and goes with it.
*/
module SplitSafety {
  import opened Basics
  import opened PageTables
  import opened MmPaths
  import opened CowFork

  /** The walk for v meets a pointer to a table that is gone. */
  ghost predicate Dangles(ts: Tables, id: Id, lvl: nat, v: nat)
    requires 1 <= lvl <= 4
    decreases lvl, v
  {
    id in ts && |ts[id]| == 512 && lvl > 1 && IsTable(lvl, ts[id][Idx(lvl, v)]) &&
    (ts[id][Idx(lvl, v)].ppn !in ts || Dangles(ts, ts[id][Idx(lvl, v)].ppn, lvl - 1, v))
  }

  /** The split in place: table n holds the pieces, and entry e leads to it. */
  function SplitOff(ts: Tables, id: Id, i: nat, n: Id, child: seq<Entry>, e: Entry): Tables
    requires id in ts && i < |ts[id]|
  {
    ts[n := child][id := ts[id][i := e]]
  }

  /** mm_release afterwards: the tables of m go, the new ones among them. */
  ghost function Freed(ts: Tables, info: Infos, m: nat, made: set<Id>): Tables {
    map x | x in ts && x !in made && !(x in info && info[x].owner == m) :: ts[x]
  }

  /** The table that holds the huge leaf over v, and its level. */
  ghost function HugeSpot(ts: Tables, id: Id, lvl: nat, v: nat): (r: (Id, nat))
    requires 1 <= lvl <= 4 && HugeAt(ts, id, lvl, v)
    ensures 1 <= r.1 <= lvl && r.0 in ts && |ts[r.0]| == 512 && IsHuge(r.1, ts[r.0][Idx(r.1, v)])
    decreases lvl, v
  {
    if IsHuge(lvl, ts[id][Idx(lvl, v)]) then (id, lvl) else HugeSpot(ts, ts[id][Idx(lvl, v)].ppn, lvl - 1, v)
  }

  lemma {:induction false} SpotMet(ts: Tables, info: Infos, m: nat, id: Id, lvl: nat, v: nat)
    requires Wf(ts, info) && 1 <= lvl <= 4 && Met(ts, info, m, id, v, 4 - lvl) && HugeAt(ts, id, lvl, v)
    ensures var r := HugeSpot(ts, id, lvl, v);
            2 <= r.1 <= 3 && Met(ts, info, m, r.0, v, 4 - r.1) && IsHuge(r.1, ts[r.0][Idx(r.1, v)])
    ensures HugeOwned(ts, info, m, id, lvl, v) <==> info[HugeSpot(ts, id, lvl, v).0].owner == m
    decreases lvl
  {
    hide Wf;
    if !IsHuge(lvl, ts[id][Idx(lvl, v)]) {
      MetNext(ts, info, m, id, lvl, v);
      SpotMet(ts, info, m, ts[id][Idx(lvl, v)].ppn, lvl - 1, v);
    }
  }

  /** From a table of another owner no walk comes upon a table of m's. */
  lemma {:induction false} OthersSafe(ts: Tables, info: Infos, ts': Tables, m: nat, x: Id, w: nat)
    requires Wf(ts, info) && m != KERNEL && x in ts && x in info && info[x].owner != m
    requires forall y {:trigger y in ts'} :: y in ts && info[y].owner != m ==> y in ts' && ts'[y] == ts[y]
    ensures !Dangles(ts', x, Level(info[x]), w)
    decreases Level(info[x])
  {
    var lvl := Level(info[x]);
    assert WfTable(ts, info, x);
    var e := ts[x][Idx(lvl, w)];
    assert WfEntry(info, x, Idx(lvl, w), e);
    assert x in ts';
    if lvl > 1 && IsTable(lvl, e) {
      assert e.ppn in ts';
      OthersSafe(ts, info, ts', m, e.ppn, w);
    }
  }

  /** The kernel's walk runs down its own tables to table id, where the pointer dangles. */
  lemma {:induction false} KernelDangles(ts: Tables, info: Infos, ts': Tables, kroot: Id, m: nat, id: Id, lvl: nat,
                                         v: nat, k: Id, at: nat)
    requires Wf(ts, info) && kroot in ts && info[kroot].owner == KERNEL && info[kroot].home == [] && m != KERNEL
    requires 2 <= lvl <= at <= 4 && id in ts && info[id].owner == KERNEL && info[id].home == Path(v, 4 - lvl)
    requires KernelTable(ts, kroot, at, v) == Some(k)
    requires forall y {:trigger y in ts'} :: y in ts && info[y].owner == KERNEL ==> y in ts'
    requires forall y {:trigger ts'[y]} :: y in ts && info[y].owner == KERNEL && y != id && y in ts' ==> ts'[y] == ts[y]
    requires id in ts' && |ts'[id]| == 512 && IsTable(lvl, ts'[id][Idx(lvl, v)]) && ts'[id][Idx(lvl, v)].ppn !in ts'
    ensures Dangles(ts', k, at, v)
    decreases at
  {
    KernelTableOk(ts, info, kroot, at, v);
    KernelTableFound(ts, info, kroot, id, lvl, v);
    if at == lvl {
      assert SamePlace(info, k, id);
    } else {
      assert k != id;
      assert k in ts' && ts'[k] == ts[k] && |ts[k]| == 512;
      OnTheWay(ts, kroot, lvl, at, v);
      var next := ts[k][Idx(at, v)].ppn;
      KernelDangles(ts, info, ts', kroot, m, id, lvl, v, next, at - 1);
    }
  }

  /** A kernel table below has one above it on the way. */
  lemma {:induction false} OnTheWay(ts: Tables, kroot: Id, lvl: nat, at: nat, v: nat)
    requires 1 <= lvl < at <= 4 && KernelTable(ts, kroot, lvl, v).Some? && KernelTable(ts, kroot, at, v).Some?
    ensures KernelTable(ts, kroot, at - 1, v).Some?
    ensures var k := KernelTable(ts, kroot, at, v).value;
            k in ts && |ts[k]| == 512 && IsTable(at, ts[k][Idx(at, v)]) &&
            KernelTable(ts, kroot, at - 1, v) == Some(ts[k][Idx(at, v)].ppn)
    decreases at - lvl
  {
    if lvl + 1 < at { OnTheWay(ts, kroot, lvl + 1, at, v); }
  }

  /** No root but m's meets a table that is gone. */
  ghost predicate RootsSafe(ts: Tables, info: Infos, m: nat) {
    forall r: Id, w: nat {:trigger Dangles(ts, r, 4, w)} ::
      r in info && info[r].home == [] && info[r].owner != m ==> !Dangles(ts, r, 4, w)
  }

  /** The first split for page v of an address space with this root: nothing where no huge leaf
      covers v. */
  ghost function FirstSplit(ts: Tables, root: Id, v: nat, n: Id, child: seq<Entry>, e: Entry): Tables {
    if HugeAt(ts, root, 4, v) then
      var (id, lvl) := HugeSpot(ts, root, 4, v);
      SplitOff(ts, id, Idx(lvl, v), n, child, e)
    else ts
  }

  /** The pieces of a 1 GiB leaf are 2 MiB leaves, and the one over v is split next. */
  ghost predicate SplitsAgain(ts: Tables, root: Id, v: nat, child: seq<Entry>) {
    HugeAt(ts, root, 4, v) && HugeSpot(ts, root, 4, v).1 == 3 && |child| == 512 && IsHuge(2, child[Idx(2, v)])
  }

  /** mm_split_huge_leaf_for_va: tables n and, under it, n2. */
  ghost function AfterSplit(ts: Tables, root: Id, v: nat, n: Id, child: seq<Entry>, e: Entry, n2: Id,
                            child2: seq<Entry>, e2: Entry): Tables
  {
    var t := FirstSplit(ts, root, v, n, child, e);
    if SplitsAgain(ts, root, v, child) && n in t && |t[n]| == 512 then SplitOff(t, n, Idx(2, v), n2, child2, e2) else t
  }

  lemma OwnedSafe(ts: Tables, info: Infos, ts': Tables, m: nat)
    requires Wf(ts, info) && m != KERNEL
    requires forall y {:trigger y in ts'} :: y in ts && info[y].owner != m ==> y in ts' && ts'[y] == ts[y]
    ensures RootsSafe(ts', info, m)
  {
    forall r: Id, w: nat | r in info && info[r].home == [] && info[r].owner != m
      ensures !Dangles(ts', r, 4, w)
    {
      OthersSafe(ts, info, ts', m, r, w);
    }
  }

  lemma FirstSplitSafe(ts: Tables, info: Infos, kroot: Id, m: nat, root: Id, v: nat, n: Id, child: seq<Entry>, e: Entry)
    requires Wf(ts, info) && kroot in ts && info[kroot].owner == KERNEL && info[kroot].home == [] && m != KERNEL
    requires Met(ts, info, m, root, v, 0) && n !in ts && e.ppn == n
    requires HugeAt(ts, root, 4, v) ==> IsTable(HugeSpot(ts, root, 4, v).1, e)
    ensures RootsSafe(Freed(FirstSplit(ts, root, v, n, child, e), info, m, {n}), info, m) <==>
            HugeOwned(ts, info, m, root, 4, v)
    ensures !HugeOwned(ts, info, m, root, 4, v) ==>
              Dangles(Freed(FirstSplit(ts, root, v, n, child, e), info, m, {n}), kroot, 4, v)
  {
    if !HugeAt(ts, root, 4, v) {
      NoHuge(ts, info, m, root, 4, v);
      OwnedSafe(ts, info, Freed(ts, info, m, {n}), m);
    } else {
      SpotMet(ts, info, m, root, 4, v);
      var (id, lvl) := HugeSpot(ts, root, 4, v);
      var ts' := Freed(SplitOff(ts, id, Idx(lvl, v), n, child, e), info, m, {n});
      hide HugeOwned, HugeSpot, HugeAt;
      if info[id].owner == m {
        OwnedSafe(ts, info, ts', m);
      } else {
        assert id in ts' && ts'[id][Idx(lvl, v)] == e;
        KernelDangles(ts, info, ts', kroot, m, id, lvl, v, kroot, 4);
      }
    }
  }

  /** The second split changes no table that outlives the address space. */
  lemma SecondSplitGone(ts: Tables, info: Infos, m: nat, root: Id, v: nat, n: Id, child: seq<Entry>, e: Entry, n2: Id,
                        child2: seq<Entry>, e2: Entry)
    requires n !in ts && n2 !in ts && n2 != n
    ensures Freed(AfterSplit(ts, root, v, n, child, e, n2, child2, e2), info, m, {n, n2}) ==
            Freed(FirstSplit(ts, root, v, n, child, e), info, m, {n})
  {
    hide HugeAt, HugeSpot;
    var t := FirstSplit(ts, root, v, n, child, e);
    var t2 := AfterSplit(ts, root, v, n, child, e, n2, child2, e2);
    assert n2 !in t;
    forall x: Id | x != n && x != n2
      ensures x in t2 <==> x in t
      ensures x in t ==> t2[x] == t[x]
    {
    }
  }

  /** The split, and the end of the address space after it, leave every other root safe if and
      only if no huge leaf covers v or it stands in a table of m's own; otherwise it is the
      kernel's walk for v that meets a table that is gone. */
  lemma SplitSafeIff(ts: Tables, info: Infos, kroot: Id, m: nat, root: Id, v: nat, n: Id, child: seq<Entry>, e: Entry,
                     n2: Id, child2: seq<Entry>, e2: Entry)
    requires Wf(ts, info) && kroot in ts && info[kroot].owner == KERNEL && info[kroot].home == [] && m != KERNEL
    requires Met(ts, info, m, root, v, 0) && n !in ts && e.ppn == n && n2 !in ts && n2 != n
    requires HugeAt(ts, root, 4, v) ==> IsTable(HugeSpot(ts, root, 4, v).1, e)
    ensures RootsSafe(Freed(AfterSplit(ts, root, v, n, child, e, n2, child2, e2), info, m, {n, n2}), info, m) <==>
            HugeOwned(ts, info, m, root, 4, v)
    ensures !HugeOwned(ts, info, m, root, 4, v) ==>
              Dangles(Freed(AfterSplit(ts, root, v, n, child, e, n2, child2, e2), info, m, {n, n2}), kroot, 4, v)
  {
    hide *;
    FirstSplitSafe(ts, info, kroot, m, root, v, n, child, e);
    SecondSplitGone(ts, info, m, root, v, n, child, e, n2, child2, e2);
  }

  // ------------------------------------------------------------------ an input

  const M: nat := 7

  function Row(e: Entry): seq<Entry> { seq(512, i => if i == 0 then e else NIL) }

  function Pointer(x: nat): Entry { NIL.(ppn := x, present := true, rw := true, us := true) }

  const CHUNK: Entry := NIL.(present := true, rw := true, ps := true)

  /** The kernel maps the first 2 MiB by one leaf; the address space has a top table of its own
      and shares the rest. */
  function DemoTables(): Tables {
    map[1 := Row(Pointer(2)), 2 := Row(Pointer(3)), 3 := Row(CHUNK), 4 := Row(Pointer(2))]
  }

  function DemoInfo(): Infos {
    map[1 := Info(KERNEL, [], 1), 2 := Info(KERNEL, [0], 1), 3 := Info(KERNEL, [0, 0], 2), 4 := Info(M, [], 4)]
  }

  lemma DemoRow(info: Infos, id: Id, e: Entry)
    requires id in info && |info[id].home| <= 3 && WfEntry(info, id, 0, e)
    ensures EntriesOk(info, id, Row(e))
  {
    forall i | 0 <= i < 512
      ensures WfEntry(info, id, i, Row(e)[i])
    {
    }
  }

  lemma DemoTop(id: Id)
    requires id == 1 || id == 4
    ensures WfTable(DemoTables(), DemoInfo(), id)
  {
    assert DemoInfo()[id].home + [0] == [0];
    DemoRow(DemoInfo(), id, Pointer(2));
    hide EntriesOk;
  }

  lemma DemoMiddle()
    ensures WfTable(DemoTables(), DemoInfo(), 2)
  {
    var info := DemoInfo();
    assert info[2].home + [0] == [0, 0] && info[2].home[..0] == [];
    DemoRow(info, 2, Pointer(3));
    hide EntriesOk;
  }

  lemma DemoBottom()
    ensures WfTable(DemoTables(), DemoInfo(), 3)
  {
    var info := DemoInfo();
    assert info[3].home[..1] == [0];
    DemoRow(info, 3, CHUNK);
    hide EntriesOk;
  }

  lemma DemoWf()
    ensures Wf(DemoTables(), DemoInfo())
  {
    var ts, info := DemoTables(), DemoInfo();
    DemoTop(1);
    DemoTop(4);
    DemoMiddle();
    DemoBottom();
    hide WfTable, Row;
    assert Distinct(info) by {
      assert [] != [0] && |[0]| != |[0, 0]|;
    }
  }

  lemma DemoHuge()
    ensures var ts, info := DemoTables(), DemoInfo();
            HugeAt(ts, 4, 4, 1) && !HugeOwned(ts, info, M, 4, 4, 1) && HugeSpot(ts, 4, 4, 1) == (3, 2)
  {
    var ts, info := DemoTables(), DemoInfo();
    assert Idx(4, 1) == 0 && Idx(3, 1) == 0 && Idx(2, 1) == 0;
    assert ts[4][0] == Pointer(2) && ts[2][0] == Pointer(3) && ts[3][0] == CHUNK;
    assert HugeAt(ts, 3, 2, 1) && HugeSpot(ts, 3, 2, 1) == (3, 2) && !HugeOwned(ts, info, M, 3, 2, 1);
    assert HugeAt(ts, 2, 3, 1) && HugeSpot(ts, 2, 3, 1) == (3, 2) && !HugeOwned(ts, info, M, 2, 3, 1);
  }

  /** A split for page 1 of that address space, and its end, leave the kernel's own walk with a
      pointer to a table that is gone. */
  lemma KernelWalkBroken(child: seq<Entry>, child2: seq<Entry>, e2: Entry)
    ensures var ts, info := DemoTables(), DemoInfo();
            Wf(ts, info) && Met(ts, info, M, 4, 1, 0) && HugeAt(ts, 4, 4, 1) && HugeSpot(ts, 4, 4, 1) == (3, 2) &&
            AfterSplit(ts, 4, 1, 9, child, Pointer(9), 10, child2, e2) == SplitOff(ts, 3, 0, 9, child, Pointer(9)) &&
            Dangles(Freed(SplitOff(ts, 3, 0, 9, child, Pointer(9)), info, M, {9, 10}), 1, 4, 1)
  {
    DemoWf();
    DemoHuge();
    hide Wf, HugeAt, HugeSpot, HugeOwned, Dangles;
    assert Idx(2, 1) == 0;
    SplitSafeIff(DemoTables(), DemoInfo(), 1, M, 4, 1, 9, child, Pointer(9), 10, child2, e2);
  }
}
