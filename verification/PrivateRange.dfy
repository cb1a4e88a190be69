/**
mm_make_private_range: replace the pages of a range by private frames, either fresh or
copied from another address space.
*/
module PrivateRange {
  import opened Basics
  import opened PageTables
  import opened MmTables
  import opened MmPaths
  import opened FrameSharing
  import opened MmLifecycle
  import opened AddressSpaces
  import opened CowFork
  import MmUnmap

  function EntryAt(ts: Tables, id: Id, lvl: nat, v: nat): Entry
    requires 1 <= lvl <= 4
  {
    if id in ts && |ts[id]| == 512 then ts[id][Idx(lvl, v)] else NIL
  }

  /** A pointer to a table below 4 GiB. */
  predicate Leads(e: Entry) { e.present && !e.ps && e.ppn < LIMIT }

  /** The share tables' frame at v as mm_va_has_private_4k finds it: below a 2 MiB leaf or in a
      last table, but not below a 1 GiB leaf. */
  function ShareFrame(ts: Tables, kroot: Id, v: nat): Option<nat> {
    var e4 := EntryAt(ts, kroot, 4, v);
    var e3 := EntryAt(ts, e4.ppn, 3, v);
    var e2 := EntryAt(ts, e3.ppn, 2, v);
    var e1 := EntryAt(ts, e2.ppn, 1, v);
    if !Leads(e4) || !Leads(e3) then None
    else if Leads(e2) then (if e1.present && e1.ppn < LIMIT then Some(e1.ppn) else None)
    else if e2.present && e2.ps then Some(HugePpn(2, e2, v))
    else None
  }

  /** mm_va_has_private_4k against the kernel's tables: m's own tables lead to a 4 KiB leaf
      that is neither the identity nor the kernel's leaf. */
  predicate HasPrivateLeaf(ts: Tables, root: Id, kroot: Id, v: nat) {
    var e4, k4 := EntryAt(ts, root, 4, v), EntryAt(ts, kroot, 4, v);
    var e3, k3 := EntryAt(ts, e4.ppn, 3, v), EntryAt(ts, k4.ppn, 3, v);
    var e2 := EntryAt(ts, e3.ppn, 2, v);
    var e1 := EntryAt(ts, e2.ppn, 1, v);
    Leads(e4) && e4.ppn != k4.ppn && Leads(e3) && !(Leads(k4) && k3.present && !k3.ps && k3.ppn == e3.ppn) &&
    Leads(e2) && e1.present && e1.ppn < LIMIT && e1.ppn != v && ShareFrame(ts, kroot, v) != Some(e1.ppn)
  }

  /** What a replaced page shows afterwards: zeroes, whatever the frame held, or a copy of
      the same page of an address space, the kernel or nobody. */
  datatype Fill = Zeroes | Garbage | CopyOf(src: nat)

  /** The kernel maps some page below 4 GiB, as it does from boot on. */
  ghost predicate KernelMaps(s: State) {
    exists w: nat :: w < LIMIT && Has(s, KERNEL, w)
  }

  /** A page that is kept: still copy-on-write, or already a private frame. */
  ghost predicate Kept(s: State, m: nat, v: nat) {
    Has(s, m, v) && (s.view[m][v].cow || (s.view[m][v].owned && s.view[m][v].ppn != v && KernelMaps(s)))
  }

  /** A frame that is nobody's identity and not m's own: kept below a 4 KiB leaf, replaced below
      a huge one. */
  ghost predicate Foreign(s: State, m: nat, v: nat) {
    Has(s, m, v) && s.view[m][v].ppn != v && s.view[m][v].ppn < LIMIT && !Kept(s, m, v)
  }

  /** A writable private frame, filled as asked. */
  ghost predicate Made(s: State, m: nat, v: nat, fill: Fill) {
    Has(s, m, v) && s.view[m][v].owned && s.view[m][v].rw && !s.view[m][v].cow && s.view[m][v].ppn != v &&
    (fill.Zeroes? ==> Reads(s, m, v) == ZeroPage())
  }

  /** The same leaf, and where it is a user page the same bytes. */
  ghost predicate Untouched(s0: State, s: State, m: nat, v: nat) {
    LeafIn(s, m, v) == LeafIn(s0, m, v) && (Private(s0, m, v) ==> Reads(s, m, v) == Reads(s0, m, v))
  }

  /** The source of a copy has a page below 4 GiB of physical address there. */
  ghost predicate Sourced(s: State, src: nat, v: nat) {
    Has(s, src, v) && s.view[src][v].ppn < LIMIT
  }

  /** The frame that the source shows at v has become a page of m in [b, v). */
  ghost predicate Reused(s0: State, s: State, m: nat, src: nat, b: nat, v: nat)
    requires Has(s0, src, v)
  {
    exists u: nat :: b <= u < v && OwnsFrame(LeafIn(s, m, u), s0.view[src][v].ppn)
  }

  /** What a copy of page v shows: the source's bytes. Only where the source shows a free frame
      at its own address, and an earlier page of the range has been given that frame, are they
      the bytes of that earlier page. */
  ghost function Copied(s0: State, s: State, m: nat, src: nat, b: nat, v: nat): Page
    requires Has(s0, src, v)
  {
    if !Private(s0, src, v) && Reused(s0, s, m, src, b, v) then At(s.mem, s0.view[src][v].ppn) else Reads(s0, src, v)
  }

  /** What the operation on a range from b makes of a page. */
  ghost predicate PageDone(s0: State, s: State, m: nat, v: nat, fill: Fill, b: nat) {
    if fill.CopyOf? then
      if Sourced(s0, fill.src, v) then Made(s, m, v, fill) && Reads(s, m, v) == Copied(s0, s, m, fill.src, b, v)
      else Untouched(s0, s, m, v)
    else if Kept(s0, m, v) then Untouched(s0, s, m, v)
    else if Foreign(s0, m, v) then Untouched(s0, s, m, v) || Made(s, m, v, fill)
    else Made(s, m, v, fill)
  }

  /** When the copy shows the source's bytes for certain: the page is owned or not the identity,
      its frame is not of the pool, or it is the first of the range. */
  lemma CopyExact(s0: State, s: State, ram: set<nat>, m: nat, src: nat, b: nat, v: nat)
    requires Steady(s, ram) && PageDone(s0, s, m, v, CopyOf(src), b) && Sourced(s0, src, v)
    requires Private(s0, src, v) || s0.view[src][v].ppn !in ram || v == b
    ensures Reads(s, m, v) == Reads(s0, src, v)
  {
    if !Private(s0, src, v) && Reused(s0, s, m, src, b, v) {
      var u: nat :| b <= u < v && OwnsFrame(LeafIn(s, m, u), s0.view[src][v].ppn);
      OwnedLive(s, ram, m, u);
      assert false;
    }
  }

  /** An owned leaf is reached through m's own tables alone. */
  lemma OwnPath(ts: Tables, info: Infos, m: nat, root: Id, v: nat)
    requires Wf(ts, info) && Met(ts, info, m, root, v, 0) && m != KERNEL
    requires LeafAt(ts, root, 4, v).Some? && LeafAt(ts, root, 4, v).value.owned
    ensures var e4 := EntryAt(ts, root, 4, v); var e3 := EntryAt(ts, e4.ppn, 3, v);
            var e2 := EntryAt(ts, e3.ppn, 2, v); var e1 := EntryAt(ts, e2.ppn, 1, v);
            Leads(e4) && Leads(e3) && Leads(e2) && e1 == LeafAt(ts, root, 4, v).value && e1.present &&
            e1.ppn < LIMIT && OwnedBy(info, e4.ppn, m) && OwnedBy(info, e3.ppn, m)
  {
    hide Wf;
    var l3 := StepDown(ts, info, m, root, 4, v);
    var l2 := StepDown(ts, info, m, l3, 3, v);
    var l1 := StepDown(ts, info, m, l2, 2, v);
    LastOwner(ts, info, m, l1, v);
    ParentOwner(ts, info, l2, l1, Idx(2, v));
    ParentOwner(ts, info, l3, l2, Idx(3, v));
  }

  ghost predicate OwnedBy(info: Infos, id: Id, m: nat) { id in info && info[id].owner == m }

  lemma StepDown(ts: Tables, info: Infos, m: nat, id: Id, lvl: nat, v: nat) returns (c: Id)
    requires Wf(ts, info) && 2 <= lvl <= 4 && Met(ts, info, m, id, v, 4 - lvl)
    requires LeafAt(ts, id, lvl, v).Some? && LeafAt(ts, id, lvl, v).value.owned
    ensures Met(ts, info, m, c, v, 5 - lvl) && EntryAt(ts, id, lvl, v) == ts[id][Idx(lvl, v)]
    ensures EntryAt(ts, id, lvl, v).ppn == c && Leads(EntryAt(ts, id, lvl, v)) && IsTable(lvl, ts[id][Idx(lvl, v)])
    ensures LeafAt(ts, c, lvl - 1, v) == LeafAt(ts, id, lvl, v)
  {
    var e := ts[id][Idx(lvl, v)];
    assert WfTable(ts, info, id);
    assert WfEntry(info, id, Idx(lvl, v), e);
    MetNext(ts, info, m, id, lvl, v);
    c := e.ppn;
    assert WfTable(ts, info, c);
  }

  lemma LastOwner(ts: Tables, info: Infos, m: nat, id: Id, v: nat)
    requires Wf(ts, info) && Met(ts, info, m, id, v, 3)
    requires LeafAt(ts, id, 1, v).Some? && LeafAt(ts, id, 1, v).value.owned
    ensures OwnedBy(info, id, m) && EntryAt(ts, id, 1, v) == LeafAt(ts, id, 1, v).value
    ensures LeafAt(ts, id, 1, v).value.present && LeafAt(ts, id, 1, v).value.ppn < LIMIT
  {
    assert WfTable(ts, info, id);
    assert WfEntry(info, id, Idx(1, v), ts[id][Idx(1, v)]);
  }

  lemma ParentOwner(ts: Tables, info: Infos, id: Id, c: Id, i: nat)
    requires Wf(ts, info) && id in ts && id in info && i < |ts[id]| && c in info && info[c].owner != KERNEL
    requires IsTable(Level(info[id]), ts[id][i]) && ts[id][i].ppn == c
    ensures info[id].owner == info[c].owner
  {
    assert WfTable(ts, info, id);
    assert WfEntry(info, id, i, ts[id][i]);
  }

  /** The frame that the kernel's tables show is its leaf there, and its tables are its own. */
  lemma ShareIs(ts: Tables, info: Infos, kroot: Id, v: nat)
    requires Wf(ts, info) && kroot in ts && info[kroot].owner == KERNEL && info[kroot].home == []
    ensures ShareFrame(ts, kroot, v).Some? ==>
              LeafAt(ts, kroot, 4, v).Some? && LeafAt(ts, kroot, 4, v).value.ppn == ShareFrame(ts, kroot, v).value
    ensures var k4 := EntryAt(ts, kroot, 4, v);
            (k4.present ==> OwnedBy(info, k4.ppn, KERNEL)) &&
            (k4.present && EntryAt(ts, k4.ppn, 3, v).present && !EntryAt(ts, k4.ppn, 3, v).ps ==>
              OwnedBy(info, EntryAt(ts, k4.ppn, 3, v).ppn, KERNEL))
  {
    assert WfTable(ts, info, kroot);
    assert WfEntry(info, kroot, Idx(4, v), ts[kroot][Idx(4, v)]);
    var k4 := EntryAt(ts, kroot, 4, v);
    if k4.present {
      assert WfTable(ts, info, k4.ppn);
      assert WfEntry(info, k4.ppn, Idx(3, v), ts[k4.ppn][Idx(3, v)]);
    }
    if ShareFrame(ts, kroot, v).Some? { ShareSeen(ts, kroot, v); }
  }

  lemma ShareSeen(ts: Tables, kroot: Id, v: nat)
    requires ShareFrame(ts, kroot, v).Some?
    ensures LeafAt(ts, kroot, 4, v).Some? && LeafAt(ts, kroot, 4, v).value.ppn == ShareFrame(ts, kroot, v).value
  {
    var e4 := EntryAt(ts, kroot, 4, v);
    var e3 := EntryAt(ts, e4.ppn, 3, v);
    var e2 := EntryAt(ts, e3.ppn, 2, v);
    if Leads(e2) { assert LeafAt(ts, e2.ppn, 1, v) == Some(EntryAt(ts, e2.ppn, 1, v)); }
    assert LeafAt(ts, e3.ppn, 2, v).Some? && LeafAt(ts, e3.ppn, 2, v).value.ppn == ShareFrame(ts, kroot, v).value;
    assert LeafAt(ts, e4.ppn, 3, v) == LeafAt(ts, e3.ppn, 2, v);
  }

  /** The kernel's top entry below 4 GiB is present if it maps any page there. */
  lemma TopPresent(ts: Tables, kroot: Id, v: nat, w: nat)
    requires v < LIMIT && w < LIMIT && LeafAt(ts, kroot, 4, w).Some?
    ensures EntryAt(ts, kroot, 4, v).present
  {
    assert Idx(4, v) == 0 == Idx(4, w);
  }

  /** mm_va_has_private_4k sees every private frame. */
  lemma OwnedPrivate(k: Kernel, m: nat, v: nat)
    requires k.Valid() && Steady(k.S(), k.ft.ram) && m in k.st.mms && v < LIMIT && KernelMaps(k.S())
    requires Has(k.S(), m, v) && k.view[m][v].owned && k.view[m][v].ppn != v
    ensures HasPrivateLeaf(k.st.ts, k.st.mms[m].root, k.st.kroot, v)
  {
    var ts, info, root, kroot := k.st.ts, k.st.info, k.st.mms[m].root, k.st.kroot;
    LeafInView(k.st, m, v);
    KernelInView(k.st, v);
    assert MmOk(ts, info, m, k.st.mms[m]);
    OwnPath(ts, info, m, root, v);
    ShareIs(ts, info, kroot, v);
    var w: nat :| w < LIMIT && Has(k.S(), KERNEL, w);
    KernelInView(k.st, w);
    TopPresent(ts, kroot, v, w);
    OwnedLive(k.S(), k.ft.ram, m, v);
    NotKernels(k.S(), k.ft.ram, m, v);
  }

  /** The kernel's leaf at a page shows no frame of the pool but the identity. */
  lemma NotKernels(s: State, ram: set<nat>, m: nat, v: nat)
    requires Steady(s, ram) && Has(s, m, v) && s.view[m][v].ppn in ram && s.view[m][v].ppn != v
    ensures Has(s, KERNEL, v) ==> s.view[KERNEL][v].ppn != s.view[m][v].ppn
  {
  }

  lemma KernelInView(st: TableStore, v: nat)
    requires st.Valid() && v < LIMIT
    ensures var view := Views(st.ts, st.mms, st.kroot);
            KERNEL in view && LeafOf(st.ts, st.kroot, v) == if v in view[KERNEL] then Some(view[KERNEL][v]) else None
  {
    assert RootOf(st.mms, st.kroot, KERNEL) == st.kroot;
  }

  /** What mm_va_has_private_4k sees is the page's leaf. */
  lemma PrivateSeen(ts: Tables, root: Id, kroot: Id, v: nat)
    requires HasPrivateLeaf(ts, root, kroot, v)
    ensures LeafAt(ts, root, 4, v).Some?
    ensures LeafAt(ts, root, 4, v).value.ppn != v && LeafAt(ts, root, 4, v).value.ppn < LIMIT
  {
    var e4 := EntryAt(ts, root, 4, v);
    var e3 := EntryAt(ts, e4.ppn, 3, v);
    var e2 := EntryAt(ts, e3.ppn, 2, v);
    assert LeafAt(ts, e2.ppn, 1, v) == Some(EntryAt(ts, e2.ppn, 1, v));
    assert LeafAt(ts, e3.ppn, 2, v) == LeafAt(ts, e2.ppn, 1, v);
    assert LeafAt(ts, e4.ppn, 3, v) == LeafAt(ts, e3.ppn, 2, v);
  }

  /** The page is to be left alone: already private, or still copy-on-write. */
  method LeaveAlone(k: Kernel, m: nat, v: nat, fill: Fill) returns (yes: bool, o: Option<Entry>)
    requires k.Valid() && Steady(k.S(), k.ft.ram) && m in k.st.mms && v < LIMIT
    ensures UserMm(k.S(), m) && (o.Some? <==> v in k.view[m]) && (o.Some? ==> k.view[m][v] == ToLeaf(o.value))
    ensures yes ==> !fill.CopyOf? && (Kept(k.S(), m, v) || Foreign(k.S(), m, v))
    ensures !fill.CopyOf? && Kept(k.S(), m, v) ==> yes
  {
    hide TableStore.Valid, FrameTable.Valid, Views, Steady, LeafAt, HasPrivateLeaf, KernelMaps;
    o := ReadLeaf(k, m, v);
    var own := HasPrivateLeaf(k.st.ts, k.st.mms[m].root, k.st.kroot, v);
    if own {
      PrivateSeen(k.st.ts, k.st.mms[m].root, k.st.kroot, v);
    } else if Kept(k.S(), m, v) && !k.view[m][v].cow {
      OwnedPrivate(k, m, v);
    }
    yes := !fill.CopyOf? && o.Some? && (o.value.cow || own);
  }

  lemma LeftAlone(s: State, ram: set<nat>, m: nat, v: nat, fill: Fill)
    requires Steady(s, ram) && !fill.CopyOf? && (Kept(s, m, v) || Foreign(s, m, v))
    ensures Taken(s, ram, [], s) && PageDone(s, s, m, v, fill, v)
  {
  }

  /** The steps of this operation: a frame is written to while free, or becomes page v of m. */
  ghost predicate Plain(step: Step, m: nat, v: nat) {
    step.SScribble? || (step.SFresh? && step.m == m && step.v == v)
  }

  lemma NoSource(s: State, ram: set<nat>, steps: seq<Step>, s': State, m: nat, v: nat, src: nat)
    requires Taken(s, ram, steps, s') && OnlyScribbles(steps) && !Sourced(s, src, v)
    ensures PageDone(s, s', m, v, CopyOf(src), v)
    ensures forall j :: 0 <= j < |steps| ==> Plain(steps[j], m, v)
  {
    ScribblesKeep(s, ram, steps, s', m, v);
  }

  lemma {:induction false} ScribblesKeep(s: State, ram: set<nat>, steps: seq<Step>, s': State, m: nat, v: nat)
    requires Taken(s, ram, steps, s') && OnlyScribbles(steps)
    ensures Untouched(s, s', m, v)
    decreases |steps|
  {
    if steps != [] {
      StepSteady(s, ram, steps[0]);
      if Private(s, m, v) { QuietBytes(s, ram, steps[0], m, v, m, v); }
      ScribblesKeep(After(s, ram, steps[0]), ram, steps[1..], s', m, v);
    }
  }

  lemma Replaced(s: State, ram: set<nat>, steps: seq<Step>, s': State, m: nat, v: nat, page: Page, fill: Fill)
    requires Renewed(s, ram, steps, s', m, v, page)
    requires fill.Zeroes? ==> page == ZeroPage()
    requires fill.CopyOf? ==> Sourced(s, fill.src, v) && page == Reads(s, fill.src, v)
    requires !fill.CopyOf? ==> !Kept(s, m, v)
    ensures PageDone(s, s', m, v, fill, v) && Taken(s, ram, steps, s')
    ensures forall j :: 0 <= j < |steps| ==> Plain(steps[j], m, v)
  {
    RenewedPage(s, ram, steps, s', m, v, page);
  }

  lemma CopyFrom(s0: State, ram: set<nat>, s1: State, f: nat, was: Page, src: nat, v: nat)
    requires Steady(s0, ram) && Idled(s0, ram, s1) && f in ram && f !in s0.refs && f != v && Has(s0, src, v)
    requires SameBytes(s0.mem, s1.mem)
    ensures At(Alloc(s1, f, was).mem, s0.view[src][v].ppn) == Reads(s0, src, v)
    ensures Alloc(s1, f, was).(mem := Alloc(s1, f, was).mem[f := Reads(s0, src, v)]) == Alloc(s1, f, Reads(s0, src, v))
  {
    if Private(s0, src, v) { CopySource(s0, ram, src, v); }
    var page := Reads(s0, src, v);
    assert s1.mem[f := was][f := page] == s1.mem[f := page];
  }

  /** mm_va_leaf_pa in the source of a copy, which may be the kernel, or missing. */
  method FindSource(k: Kernel, src: nat, v: nat) returns (r: Option<nat>)
    requires k.Valid() && v < LIMIT
    ensures r.Some? <==> Sourced(k.S(), src, v)
    ensures r.Some? ==> r.value == k.view[src][v].ppn
  {
    if src in k.st.mms {
      hide TableStore.Valid, FrameTable.Valid, Views;
      var found := MmUnmap.Mapped(k, src, v);
      if found {
        var o := ReadLeaf(k, src, v);
        return Some(o.value.ppn);
      }
      return None;
    }
    if src != KERNEL || !MmUnmap.Visible(k.st.ts, k.st.kroot, 4, v) {
      if src == KERNEL {
        KernelFound(k, v);
      }
      return None;
    }
    KernelFound(k, v);
    r := Some(LeafAt(k.st.ts, k.st.kroot, 4, v).value.ppn);
  }

  lemma KernelFound(k: Kernel, v: nat)
    requires k.Valid() && v < LIMIT
    ensures MmUnmap.Visible(k.st.ts, k.st.kroot, 4, v) <==> Sourced(k.S(), KERNEL, v)
    ensures Sourced(k.S(), KERNEL, v) ==> LeafAt(k.st.ts, k.st.kroot, 4, v).Some? &&
                                          LeafAt(k.st.ts, k.st.kroot, 4, v).value.ppn == k.view[KERNEL][v].ppn
  {
    KernelInView(k.st, v);
    MmUnmap.VisibleIff(k.st.ts, k.st.info, KERNEL, k.st.kroot, 4, v);
  }

  /** Fill a new frame as asked; not found when a copy has no source page. */
  method FillFrame(k: Kernel, v: nat, f: nat, fill: Fill, ghost s0: State, ghost s1: State)
    returns (ghost page: Page, found: bool)
    requires k.Valid() && Steady(s0, k.ft.ram) && Idled(s0, k.ft.ram, s1) && f in k.ft.ram && f !in s0.refs && v < LIMIT
    requires k.view == s0.view && k.S() == Alloc(s1, f, if fill.Zeroes? then ZeroPage() else At(s1.mem, f))
    requires f != v && (fill.CopyOf? ==> SameBytes(s0.mem, s1.mem))
    modifies k.ft
    ensures k.Valid() && k.S() == Alloc(s1, f, page)
    ensures fill.Zeroes? ==> page == ZeroPage()
    ensures fill.CopyOf? ==> (found <==> Sourced(s0, fill.src, v))
    ensures fill.CopyOf? && found ==> page == Reads(s0, fill.src, v)
    ensures fill.CopyOf? && !found ==> page == At(s1.mem, f)
    ensures !fill.CopyOf? ==> found
  {
    hide TableStore.Valid, FrameTable.Valid, Views, Steady, ZeroPage, Idled, SameBytes;
    page := if fill.Zeroes? then ZeroPage() else At(s1.mem, f);
    found := true;
    if fill.CopyOf? {
      var from := FindSource(k, fill.src, v);
      found := from.Some?;
      if found {
        CopyFrom(s0, k.ft.ram, s1, f, page, fill.src, v);
        k.ft.Copy(f, from.value);
        page := Reads(s0, fill.src, v);
      }
    }
  }

  /** Memory changed at most in the frame that m now owns at v. */
  ghost predicate WroteOwn(s: State, s': State, m: nat, v: nat) {
    forall g: nat :: At(s'.mem, g) == At(s.mem, g) || OwnsFrame(LeafIn(s', m, v), g)
  }

  lemma WroteNone(s: State, s': State, m: nat, v: nat, s1: State, f: nat)
    requires SameBytes(s.mem, s1.mem) && s'.mem == s1.mem[f := At(s1.mem, f)]
    ensures WroteOwn(s, s', m, v)
  {
  }

  lemma WroteOne(s: State, s': State, m: nat, v: nat, s1: State, f: nat, page: Page)
    requires SameBytes(s.mem, s1.mem) && s'.mem == s1.mem[f := page] && OwnsFrame(LeafIn(s', m, v), f)
    ensures WroteOwn(s, s', m, v)
  {
  }

  /** Page v cannot get a frame, or has no leaf to route the new one by. */
  ghost predicate Stuck(k: Kernel, m: nat, v: nat)
    reads k, k.st, k.ft
  {
    Short(k, v) || !Has(k.S(), m, v)
  }

  /** One page of mm_make_private_range_impl. */
  method PrivatePage(k: Kernel, m: nat, v: nat, fill: Fill) returns (ok: bool, ghost steps: seq<Step>)
    requires k.Valid() && Steady(k.S(), k.ft.ram) && m in k.st.mms && v < LIMIT
    modifies k`view, k`shm, k.st, k.ft
    ensures k.Valid() && SameMms(old(k.st.mms), k.st.mms) && k.st.mms.Keys == old(k.st.mms.Keys)
    ensures Taken(old(k.S()), k.ft.ram, steps, k.S()) && forall j :: 0 <= j < |steps| ==> Plain(steps[j], m, v)
    ensures ok ==> PageDone(old(k.S()), k.S(), m, v, fill, v)
    ensures ok && fill.CopyOf? ==> WroteOwn(old(k.S()), k.S(), m, v)
    ensures !ok ==> Stuck(k, m, v)
  {
    hide TableStore.Valid, FrameTable.Valid, Views, Steady, Taken, Renewed, Idled, PageDone, PathAllows;
    hide Kept, Foreign, Sourced, SameBytes, WroteOwn;
    ghost var s0 := k.S();
    var alone, o := LeaveAlone(k, m, v, fill);
    if alone {
      LeftAlone(s0, k.ft.ram, m, v, fill);
      steps := [];
      return true, steps;
    }
    ghost var s1, page;
    var r, found;
    r, s1 := AllocAvoid(k, v, fill.Zeroes?);
    if r.None? {
      steps := IdledOnly(s0, k.ft.ram, s1);
      return false, steps;
    }
    page, found := FillFrame(k, v, r.value, fill, s0, s1);
    if !found {
      k.ft.Release(r.value);
      steps := ReturnTaken(s0, k.ft.ram, s1, r.value, page);
      NoSource(s0, k.ft.ram, steps, k.S(), m, v, fill.src);
      WroteNone(s0, k.S(), m, v, s1, r.value);
      return true, steps;
    }
    var was := if o.Some? then Some(ToLeaf(o.value)) else None;
    ok, steps := ReplaceLeaf(k, m, v, was, r.value, s0, s1, page);
    if ok {
      Replaced(s0, k.ft.ram, steps, k.S(), m, v, page, fill);
      if fill.CopyOf? { WroteOne(s0, k.S(), m, v, s1, r.value, page); }
    }
  }

  // -------------------------------------------------------------------- range

  /** The page is not one of m's in [b, v). */
  ghost predicate Outside(m: nat, b: nat, v: nat, n: nat, w: nat) { n != m || w < b || w >= v }

  /** What holds before the loop reaches page v: the pages before it are done, the others
      of m and every page of the others are as they were. */
  ghost predicate HalfDone(s0: State, s: State, m: nat, fill: Fill, b: nat, v: nat) {
    (forall u: nat {:trigger PageDone(s0, s, m, u, fill, b)} :: b <= u < v ==> PageDone(s0, s, m, u, fill, b)) &&
    (forall n: nat, w: nat {:trigger Untouched(s0, s, n, w)} :: Outside(m, b, v, n, w) ==> Untouched(s0, s, n, w))
  }

  /** Such a step changes page v of m alone. */
  lemma PlainStep(s: State, ram: set<nat>, step: Step, m: nat, v: nat, n: nat, w: nat)
    requires Steady(s, ram) && Enabled(s, ram, step) && Plain(step, m, v) && !(n == m && w == v)
    ensures Untouched(s, After(s, ram, step), n, w)
  {
    if Private(s, n, w) { QuietBytes(s, ram, step, m, v, n, w); }
  }

  lemma {:induction false} PlainRun(s: State, ram: set<nat>, steps: seq<Step>, s': State, m: nat, v: nat, n: nat,
                                    w: nat)
    requires Taken(s, ram, steps, s') && !(n == m && w == v)
    requires forall j :: 0 <= j < |steps| ==> Plain(steps[j], m, v)
    ensures Untouched(s, s', n, w)
    decreases |steps|
  {
    if steps != [] {
      StepSteady(s, ram, steps[0]);
      PlainStep(s, ram, steps[0], m, v, n, w);
      PlainRun(After(s, ram, steps[0]), ram, steps[1..], s', m, v, n, w);
    }
  }

  lemma UntouchedTrans(s0: State, s: State, s': State, n: nat, w: nat)
    requires Untouched(s0, s, n, w) && Untouched(s, s', n, w)
    ensures Untouched(s0, s', n, w)
  {
  }

  lemma KernelMapsSame(s0: State, s: State, m: nat, fill: Fill, b: nat, v: nat)
    requires HalfDone(s0, s, m, fill, b, v) && m != KERNEL
    ensures KernelMaps(s) <==> KernelMaps(s0)
  {
    if KernelMaps(s) {
      var w: nat :| w < LIMIT && Has(s, KERNEL, w);
      assert Untouched(s0, s, KERNEL, w);
      assert Has(s0, KERNEL, w);
    }
    if KernelMaps(s0) {
      var w: nat :| w < LIMIT && Has(s0, KERNEL, w);
      assert Untouched(s0, s, KERNEL, w);
      assert Has(s, KERNEL, w);
    }
  }

  /** Memory changed at most in frames that m now owns in [b, v). */
  ghost predicate WroteRange(s0: State, s: State, m: nat, b: nat, v: nat) {
    forall g: nat {:trigger At(s.mem, g)} ::
      At(s.mem, g) == At(s0.mem, g) || exists u: nat :: b <= u < v && OwnsFrame(LeafIn(s, m, u), g)
  }

  /** The pages of m before v are as they were. */
  ghost predicate Earlier(s: State, s': State, m: nat, b: nat, v: nat) {
    forall u: nat {:trigger Untouched(s, s', m, u)} :: b <= u < v ==> Untouched(s, s', m, u)
  }

  lemma ReusedSame(s0: State, s: State, s': State, m: nat, src: nat, b: nat, v: nat)
    requires Has(s0, src, v) && Earlier(s, s', m, b, v)
    ensures Reused(s0, s', m, src, b, v) <==> Reused(s0, s, m, src, b, v)
    ensures Reused(s0, s, m, src, b, v) ==> At(s'.mem, s0.view[src][v].ppn) == At(s.mem, s0.view[src][v].ppn)
  {
    var g := s0.view[src][v].ppn;
    forall u: nat | b <= u < v
      ensures OwnsFrame(LeafIn(s', m, u), g) <==> OwnsFrame(LeafIn(s, m, u), g)
      ensures OwnsFrame(LeafIn(s, m, u), g) ==> At(s'.mem, g) == At(s.mem, g)
    {
      assert Untouched(s, s', m, u);
    }
  }

  lemma CopiedSame(s0: State, s: State, s': State, m: nat, src: nat, b: nat, v: nat)
    requires Has(s0, src, v) && Earlier(s, s', m, b, v)
    ensures Copied(s0, s', m, src, b, v) == Copied(s0, s, m, src, b, v)
  {
    ReusedSame(s0, s, s', m, src, b, v);
  }

  lemma DoneStays(s0: State, s: State, s': State, m: nat, fill: Fill, u: nat, b: nat, v: nat)
    requires PageDone(s0, s, m, u, fill, b) && b <= u < v && Earlier(s, s', m, b, v)
    ensures PageDone(s0, s', m, u, fill, b)
  {
    hide Kept, Foreign, Copied;
    assert Untouched(s, s', m, u);
    if fill.CopyOf? && Sourced(s0, fill.src, u) { CopiedSame(s0, s, s', m, fill.src, b, u); }
    if Untouched(s0, s, m, u) { UntouchedTrans(s0, s, s', m, u); }
  }

  /** What the copy of page v read is what the contract says it shows. */
  lemma CopiedNow(s0: State, s: State, s': State, m: nat, src: nat, b: nat, v: nat)
    requires Has(s0, src, v) && Untouched(s0, s, src, v) && WroteRange(s0, s, m, b, v) && Earlier(s, s', m, b, v)
    ensures Has(s, src, v) && Reads(s, src, v) == Copied(s0, s', m, src, b, v)
  {
    CopiedSame(s0, s, s', m, src, b, v);
    var g := s0.view[src][v].ppn;
    assert At(s.mem, g) == At(s0.mem, g) || Reused(s0, s, m, src, b, v);
  }

  lemma DoneNow(s0: State, s: State, s': State, m: nat, fill: Fill, b: nat, v: nat)
    requires HalfDone(s0, s, m, fill, b, v) && PageDone(s, s', m, v, fill, v) && b <= v && m != KERNEL
    requires Earlier(s, s', m, b, v) && (fill.CopyOf? ==> WroteRange(s0, s, m, b, v))
    ensures PageDone(s0, s', m, v, fill, b)
  {
    assert Untouched(s0, s, m, v);
    KernelMapsSame(s0, s, m, fill, b, v);
    assert Kept(s, m, v) <==> Kept(s0, m, v);
    assert Foreign(s, m, v) <==> Foreign(s0, m, v);
    if Untouched(s, s', m, v) { UntouchedTrans(s0, s, s', m, v); }
    if fill.CopyOf? {
      assert Untouched(s0, s, fill.src, v);
      assert Sourced(s, fill.src, v) <==> Sourced(s0, fill.src, v);
      if Sourced(s0, fill.src, v) { CopiedNow(s0, s, s', m, fill.src, b, v); }
    }
  }

  lemma WroteMore(s0: State, s: State, s': State, m: nat, b: nat, v: nat)
    requires WroteRange(s0, s, m, b, v) && WroteOwn(s, s', m, v) && Earlier(s, s', m, b, v) && b <= v
    ensures WroteRange(s0, s', m, b, v + 1)
  {
    forall g: nat
      ensures At(s'.mem, g) == At(s0.mem, g) || exists u: nat :: b <= u < v + 1 && OwnsFrame(LeafIn(s', m, u), g)
    {
      if At(s'.mem, g) != At(s0.mem, g) && !OwnsFrame(LeafIn(s', m, v), g) {
        assert At(s.mem, g) != At(s0.mem, g);
        var u: nat :| b <= u < v && OwnsFrame(LeafIn(s, m, u), g);
        assert Untouched(s, s', m, u);
        assert OwnsFrame(LeafIn(s', m, u), g);
      }
    }
  }

  lemma OneMore(s0: State, ram: set<nat>, s: State, steps: seq<Step>, s': State, m: nat, fill: Fill, b: nat, v: nat)
    requires HalfDone(s0, s, m, fill, b, v) && PageDone(s, s', m, v, fill, v) && Taken(s, ram, steps, s') && b <= v
    requires m != KERNEL && forall j :: 0 <= j < |steps| ==> Plain(steps[j], m, v)
    requires fill.CopyOf? ==> WroteRange(s0, s, m, b, v) && WroteOwn(s, s', m, v)
    ensures HalfDone(s0, s', m, fill, b, v + 1) && (fill.CopyOf? ==> WroteRange(s0, s', m, b, v + 1))
  {
    hide Untouched, PageDone, WroteRange, WroteOwn, Taken;
    OthersStay(s0, ram, s, steps, s', m, fill, b, v);
    forall u: nat | b <= u < v
      ensures Untouched(s, s', m, u)
    {
      PlainRun(s, ram, steps, s', m, v, m, u);
    }
    DoneNow(s0, s, s', m, fill, b, v);
    forall u: nat | b <= u < v + 1
      ensures PageDone(s0, s', m, u, fill, b)
    {
      if u < v {
        DoneStays(s0, s, s', m, fill, u, b, v);
      }
    }
    if fill.CopyOf? { WroteMore(s0, s, s', m, b, v); }
  }

  lemma OthersStay(s0: State, ram: set<nat>, s: State, steps: seq<Step>, s': State, m: nat, fill: Fill, b: nat, v: nat)
    requires HalfDone(s0, s, m, fill, b, v) && Taken(s, ram, steps, s') && b <= v
    requires forall j :: 0 <= j < |steps| ==> Plain(steps[j], m, v)
    ensures forall n: nat, w: nat {:trigger Untouched(s0, s', n, w)} ::
              Outside(m, b, v + 1, n, w) ==> Untouched(s0, s', n, w)
  {
    hide Untouched, PageDone;
    forall n: nat, w: nat | Outside(m, b, v + 1, n, w)
      ensures Untouched(s0, s', n, w)
    {
      assert Untouched(s0, s, n, w);
      PlainRun(s, ram, steps, s', m, v, n, w);
      UntouchedTrans(s0, s, s', n, w);
    }
  }

  lemma NotStarted(s: State, m: nat, fill: Fill, b: nat)
    ensures HalfDone(s, s, m, fill, b, b) && WroteRange(s, s, m, b, b)
  {
  }

  /** Where the loop over [b, e) ends: pages from 4 GiB on are never touched. */
  function RangeEnd(b: nat, e: nat): nat {
    var end := if e > LIMIT then LIMIT else e;
    if b < end then end else b
  }

  lemma UserNotKernel(k: Kernel, m: nat)
    requires k.Valid() && m in k.st.mms
    ensures m != KERNEL
  {
    assert MmOk(k.st.ts, k.st.info, m, k.st.mms[m]);
  }

  /** mm_make_private_range_impl over the pages [b, e): on success every page of the range is done,
      and whatever happens no other page of any address space changes. */
  method MakePrivate(k: Kernel, m: nat, b: nat, e: nat, fill: Fill) returns (rc: int, ghost steps: seq<Step>)
    requires k.Valid() && Steady(k.S(), k.ft.ram) && m in k.st.mms
    modifies k`view, k`shm, k.st, k.ft
    ensures k.Valid() && SameMms(old(k.st.mms), k.st.mms) && Taken(old(k.S()), k.ft.ram, steps, k.S())
    ensures rc == 0 || rc == -1
    ensures rc == 0 ==> HalfDone(old(k.S()), k.S(), m, fill, b, RangeEnd(b, e))
    ensures rc == -1 ==> exists v: nat :: b <= v < RangeEnd(b, e) && Stuck(k, m, v)
    ensures forall n: nat, w: nat {:trigger Untouched(old(k.S()), k.S(), n, w)} ::
              Outside(m, b, RangeEnd(b, e), n, w) ==> Untouched(old(k.S()), k.S(), n, w)
  {
    hide TableStore.Valid, FrameTable.Valid, Views, Steady, Taken, HalfDone, PageDone, Untouched, WroteRange, WroteOwn;
    ghost var s0, mms0 := k.S(), k.st.mms;
    TakenNone(s0, k.ft.ram);
    NotStarted(s0, m, fill, b);
    UserNotKernel(k, m);
    steps := [];
    var end := if e > LIMIT then LIMIT else e;
    var v := b;
    while v < end
      invariant b <= v && (v <= end || v == b) && k.Valid() && SameMms(mms0, k.st.mms) && k.st.mms.Keys == mms0.Keys
      invariant Taken(s0, k.ft.ram, steps, k.S()) && HalfDone(s0, k.S(), m, fill, b, v)
      invariant fill.CopyOf? ==> WroteRange(s0, k.S(), m, b, v)
    {
      ghost var s, mms1 := k.S(), k.st.mms;
      TakenSteady(s0, k.ft.ram, steps, s);
      ghost var more;
      var ok;
      ok, more := PrivatePage(k, m, v, fill);
      SameMmsTrans(mms0, mms1, k.st.mms);
      TakenThen(s0, k.ft.ram, steps, s, more, k.S());
      steps := steps + more;
      if !ok {
        OthersStay(s0, k.ft.ram, s, more, k.S(), m, fill, b, v);
        return -1, steps;
      }
      OneMore(s0, k.ft.ram, s, more, k.S(), m, fill, b, v);
      v := v + 1;
    }
    OutsideStays(s0, k.S(), m, fill, b, v);
    rc := 0;
  }

  lemma OutsideStays(s0: State, s: State, m: nat, fill: Fill, b: nat, v: nat)
    requires HalfDone(s0, s, m, fill, b, v)
    ensures forall n: nat, w: nat {:trigger Untouched(s0, s, n, w)} :: Outside(m, b, v, n, w) ==> Untouched(s0, s, n, w)
  {
  }

  // ----------------------------------------------------------------- an input

  const POOL: set<nat> := {6, 7}

  /** The kernel maps pages 5 and 6 by identity; frame 6 is free. */
  function IdentityState(): State {
    State(map[KERNEL := map[5 := Leaf(5, true, false, false), 6 := Leaf(6, true, false, false)], 1 := map[]], [], map[],
          map[5 := [1], 6 := [2]], {}, [])
  }

  lemma IdentitySteady()
    ensures Steady(IdentityState(), POOL)
  {
    var s := IdentityState();
    assert forall m: nat, v: nat :: Has(s, m, v) ==> m == KERNEL && (v == 5 || v == 6);
    assert s.view[KERNEL][5] == Leaf(5, true, false, false) && s.view[KERNEL][6] == Leaf(6, true, false, false);
    forall f
      ensures Counted(s, multiset{}, f)
    {
      assert SlotRefs(s.cache, f) == {} && LeafRefs(s.view, f) == {};
      assert Refs(s, f) == {};
    }
    assert Conserved(s, multiset{});
    assert Isolated(s) && NoStrays(s, POOL) && Pristine(s) && KernelBare(s) && Bounded(s);
  }

  /** The copy of page 5 is given frame 6, so that the copy of page 6 reads that copy. */
  function CopiedState(): State {
    Fresh(Fresh(IdentityState(), 1, 5, 6, [1], true), 1, 6, 7, [1], true)
  }

  lemma CopiedSteps()
    ensures Taken(IdentityState(), POOL, [SFresh(1, 5, 6, [1], true), SFresh(1, 6, 7, [1], true)], CopiedState())
  {
    IdentitySteady();
    var s := IdentityState();
    var one, two := SFresh(1, 5, 6, [1], true), SFresh(1, 6, 7, [1], true);
    assert UserMm(s, 1);
    TakenOne(s, POOL, one);
    var s1 := After(s, POOL, one);
    assert UserMm(s1, 1) && 7 !in s1.refs;
    TakenOne(s1, POOL, two);
    hide Steady, Taken;
    TakenThen(s, POOL, [one], s1, [two], CopiedState());
    assert [one] + [two] == [one, two];
  }

  /** A run that copies two pages of the kernel as the contract says, and the second shows the
      bytes of the first. */
  lemma CopyReadsBack()
    ensures var s, s' := IdentityState(), CopiedState();
            Taken(s, POOL, [SFresh(1, 5, 6, [1], true), SFresh(1, 6, 7, [1], true)], s') &&
            HalfDone(s, s', 1, CopyOf(KERNEL), 5, 7) && Reads(s', 1, 6) != Reads(s, KERNEL, 6)
  {
    CopiedSteps();
    hide Taken;
    var s, s' := IdentityState(), CopiedState();
    assert s'.view[1][5] == Leaf(6, true, false, true) && s'.view[1][6] == Leaf(7, true, false, true);
    assert At(s'.mem, 6) == [1] && At(s'.mem, 7) == [1] && s'.view[KERNEL] == s.view[KERNEL];
    assert OwnsFrame(LeafIn(s', 1, 5), 6) && Reused(s, s', 1, KERNEL, 5, 6);
    assert PageDone(s, s', 1, 5, CopyOf(KERNEL), 5);
    assert PageDone(s, s', 1, 6, CopyOf(KERNEL), 5);
    assert forall n: nat, w: nat :: Outside(1, 5, 7, n, w) ==> LeafIn(s', n, w) == LeafIn(s, n, w);
    assert forall n: nat, w: nat :: !Private(s, n, w);
  }
}
