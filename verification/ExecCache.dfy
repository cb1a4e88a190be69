/**
The exec image cache: snapshots of freshly loaded images whose frames later execs map
read-only. exec_img_register with exec_img_demote_owner, exec_img_map, and the choice of
a slot to give up.
*/
module ExecCache {
  import opened Basics
  import opened PageTables
  import opened MmTables
  import MmPaths
  import opened FrameSharing
  import opened MmLifecycle
  import opened AddressSpaces
  import opened CowFork
  import MmRelease
  import MmUnmap

  const MAX_PAGES: nat := 16 * 1024
  const MAX_TOTAL: nat := 64 * 1024 * 1024

  /** The bytes that the used slots account for. */
  function TotalBytes(cache: seq<Image>): nat {
    if cache == [] then 0 else TotalBytes(cache[..|cache| - 1]) + 4096 * |cache[|cache| - 1].pages|
  }

  /** Pages in address order. */
  ghost predicate Ascending(pages: seq<Slot>) {
    forall i, j :: 0 <= i < j < |pages| ==> pages[i].v < pages[j].v
  }

  ghost predicate ImageOk(img: Image) {
    Ascending(img.pages) && (!img.used ==> img.pages == []) && |img.pages| <= MAX_PAGES &&
    forall j :: 0 <= j < |img.pages| ==> img.lo <= img.pages[j].v < img.hi <= LIMIT
  }

  /** The byte counter is the sum over the slots and within the budget; no key is used twice. */
  ghost predicate CacheOk(k: Kernel)
    reads k
  {
    |k.cache| == IMAGE_SLOTS == |k.snap| && k.cacheBytes == TotalBytes(k.cache) <= MAX_TOTAL &&
    (forall i {:trigger k.cache[i]} :: 0 <= i < |k.cache| ==> ImageOk(k.cache[i])) &&
    (forall i, j {:trigger k.cache[i].key, k.cache[j].key} ::
     0 <= i < j < |k.cache| && k.cache[i].used && k.cache[j].used ==> k.cache[i].key != k.cache[j].key)
  }

  lemma {:induction false} TotalUpdate(cache: seq<Image>, i: nat, img: Image)
    requires i < |cache|
    ensures TotalBytes(cache[i := img]) == TotalBytes(cache) - 4096 * |cache[i].pages| + 4096 * |img.pages|
    ensures TotalBytes(cache) >= 4096 * |cache[i].pages|
    decreases |cache|
  {
    var n := |cache| - 1;
    if i == n {
      assert cache[i := img][..n] == cache[..n];
    } else {
      assert cache[i := img][..n] == cache[..n][i := img];
      TotalUpdate(cache[..n], i, img);
    }
  }

  // ------------------------------------------------------------ slot choice

  /** exec_img_entry_idle. */
  method EntryIdle(k: Kernel, i: nat) returns (idle: bool)
    requires i < |k.cache|
    ensures idle <==> Idle(k.S(), i)
  {
    var j := 0;
    idle := true;
    while j < |k.cache[i].pages|
      invariant j <= |k.cache[i].pages| && idle
      invariant forall l :: 0 <= l < j ==> Live(k.S(), k.cache[i].pages[l].ppn) == 1
    {
      if k.ft.RefCount(k.cache[i].pages[j].ppn) != 1 {
        return false;
      }
      j := j + 1;
    }
  }

  lemma EmptyIdle(k: Kernel, i: nat)
    requires CacheOk(k) && i < |k.cache| && !k.cache[i].used
    ensures Idle(k.S(), i)
  {
    assert k.cache[i].pages == [];
  }

  /** exec_img_evict_slot: the slot of this key if idle, else the first free slot, else the
      oldest idle one. A slot it returns holds nothing that an address space maps. */
  method EvictSlot(k: Kernel, key: nat) returns (r: Option<nat>)
    requires CacheOk(k)
    ensures r.Some? ==> r.value < |k.cache| && Idle(k.S(), r.value)
    ensures r.Some? ==> forall l :: 0 <= l < |k.cache| && l != r.value && k.cache[l].used ==> k.cache[l].key != key
    ensures r.Some? && k.cache[r.value].used && k.cache[r.value].key != key ==>
              (forall l :: 0 <= l < |k.cache| ==>
               k.cache[l].used && (Idle(k.S(), l) ==> k.cache[r.value].gen <= k.cache[l].gen))
    ensures r.None? ==>
              (exists l :: 0 <= l < |k.cache| && k.cache[l].used && k.cache[l].key == key && !Idle(k.S(), l)) ||
              (forall l :: 0 <= l < |k.cache| ==> k.cache[l].used && !Idle(k.S(), l))
  {
    hide Idle;
    var lru: Option<nat> := None;
    var spare: Option<nat> := None;
    var i := 0;
    while i < |k.cache|
      invariant i <= |k.cache|
      invariant spare.Some? ==> spare.value < i && !k.cache[spare.value].used
      invariant spare.None? ==> forall l :: 0 <= l < i ==> k.cache[l].used
      invariant lru.Some? ==> lru.value < i && k.cache[lru.value].used && Idle(k.S(), lru.value)
      invariant forall l :: 0 <= l < i && k.cache[l].used ==>
                  k.cache[l].key != key && (Idle(k.S(), l) ==> lru.Some? && k.cache[lru.value].gen <= k.cache[l].gen)
    {
      var img := k.cache[i];
      if !img.used {
        if spare.None? {
          spare := Some(i);
        }
      } else {
        var idle := EntryIdle(k, i);
        if img.key == key {
          return if idle then Some(i) else None;
        }
        if idle && (lru.None? || img.gen < k.cache[lru.value].gen) {
          lru := Some(i);
        }
      }
      i := i + 1;
    }
    r := if spare.Some? then spare else lru;
    if spare.Some? { EmptyIdle(k, spare.value); }
  }

  // ---------------------------------------------------------------- counting

  lemma BumpAdd(refs: map<nat, nat>, more: multiset<nat>, f: nat)
    requires f in refs
    ensures var r := Bump(refs, more); f in r && Bump(refs, more + multiset{f}) == r[f := r[f] + 1]
  {
  }

  lemma BumpOne(refs: map<nat, nat>, pages: seq<Slot>, slot: Slot)
    requires slot.ppn in refs
    ensures var r := Bump(refs, Frames(pages));
            slot.ppn in r && Bump(refs, Frames(pages + [slot])) == r[slot.ppn := r[slot.ppn] + 1]
  {
    assert (pages + [slot])[..|pages|] == pages;
    hide Bump;
    BumpAdd(refs, Frames(pages), slot.ppn);
  }

  lemma BumpUndo(refs: map<nat, nat>, more: multiset<nat>, f: nat)
    requires forall g :: g in refs ==> refs[g] > 0
    ensures Released(Bump(refs, more + multiset{f}), f) == Bump(refs, more)
  {
  }

  lemma BumpBack(refs: map<nat, nat>, pages: seq<Slot>)
    requires pages != [] && (forall f :: f in refs ==> refs[f] > 0)
    ensures var n := |pages| - 1;
            Released(Bump(refs, Frames(pages)), pages[n].ppn) == Bump(refs, Frames(pages[..n]))
  {
    var n := |pages| - 1;
    BumpUndo(refs, Frames(pages[..n]), pages[n].ppn);
  }

  lemma SinkOne(refs: map<nat, nat>, pages: seq<Slot>, j: nat)
    requires j < |pages|
    ensures Released(Sink(refs, Frames(pages[..j])), pages[j].ppn) == Sink(refs, Frames(pages[..j + 1]))
  {
    assert pages[..j + 1][..j] == pages[..j];
    assert Frames(pages[..j + 1]) == Frames(pages[..j]) + multiset{pages[j].ppn};
  }

  lemma NoBump(refs: map<nat, nat>)
    ensures Bump(refs, Frames([])) == refs
  {
  }

  /** Give back the references taken so far. */
  method ReleasePages(k: Kernel, pages: seq<Slot>, ghost refs0: map<nat, nat>)
    requires k.Valid() && k.ft.refs == Bump(refs0, Frames(pages)) && forall f :: f in refs0 ==> refs0[f] > 0
    modifies k.ft
    ensures k.Valid() && k.ft.refs == refs0 && k.ft.mem == old(k.ft.mem)
  {
    hide TableStore.Valid, Views, Bump;
    var j := |pages|;
    assert pages[..j] == pages;
    while j > 0
      invariant j <= |pages| && k.Valid() && k.ft.mem == old(k.ft.mem) && k.ft.refs == Bump(refs0, Frames(pages[..j]))
    {
      j := j - 1;
      BumpBack(refs0, pages[..j + 1]);
      assert pages[..j + 1][..j] == pages[..j];
      k.ft.Release(pages[j].ppn);
    }
    assert pages[..0] == [];
    NoBump(refs0);
  }

  /** exec_img_clear, the frame part. */
  method ClearPages(k: Kernel, pages: seq<Slot>)
    requires k.Valid()
    modifies k.ft
    ensures k.Valid() && k.ft.refs == Sink(old(k.ft.refs), Frames(pages)) && k.ft.mem == old(k.ft.mem)
  {
    ghost var refs0 := k.ft.refs;
    assert Sink(refs0, Frames(pages[..0])) == refs0;
    hide TableStore.Valid, Views, Sink;
    var j := 0;
    while j < |pages|
      invariant j <= |pages| && k.Valid() && k.ft.mem == old(k.ft.mem) && k.ft.refs == Sink(refs0, Frames(pages[..j]))
    {
      SinkOne(refs0, pages, j);
      k.ft.Release(pages[j].ppn);
      j := j + 1;
    }
    assert pages[..j] == pages;
  }

  // -------------------------------------------------------------- collecting

  /** How many pages of [lo, hi) are mapped. */
  function Count(lv: map<nat, Leaf>, lo: nat, hi: nat): nat
    decreases hi
  {
    if hi <= lo then 0 else Count(lv, lo, hi - 1) + (if hi - 1 in lv then 1 else 0)
  }

  /** The slots of the mapped pages of [lo, hi), in address order. */
  ghost predicate Collected(lv: map<nat, Leaf>, lo: nat, hi: nat, pages: seq<Slot>) {
    Ascending(pages) && |pages| == Count(lv, lo, hi) &&
    (forall j {:trigger pages[j]} :: 0 <= j < |pages| ==>
     lo <= pages[j].v < hi && pages[j].v in lv && lv[pages[j].v].ppn == pages[j].ppn) &&
    (forall v :: lo <= v < hi && v in lv ==> v in Vpns(pages))
  }

  /** The pages that mm_va_leaf_pa finds: those of frames below 4 GiB. */
  ghost function Near(lv: map<nat, Leaf>): map<nat, Leaf> { map v | v in lv && lv[v].ppn < LIMIT :: lv[v] }

  ghost predicate AllNear(lv: map<nat, Leaf>, lo: nat, hi: nat) {
    forall v :: lo <= v < hi && v in lv ==> lv[v].ppn < LIMIT
  }

  /** The second loop of exec_img_register fills as many slots as the first has counted if and
      only if no page of the window has a frame at or above 4 GiB; otherwise fewer. */
  lemma {:induction false} FilledIff(lv: map<nat, Leaf>, lo: nat, hi: nat)
    ensures Count(Near(lv), lo, hi) <= Count(lv, lo, hi)
    ensures Count(Near(lv), lo, hi) == Count(lv, lo, hi) <==> AllNear(lv, lo, hi)
    decreases hi
  {
    if hi > lo {
      FilledIff(lv, lo, hi - 1);
      if hi - 1 in lv && lv[hi - 1].ppn >= LIMIT {
        assert !AllNear(lv, lo, hi);
      } else {
        assert AllNear(lv, lo, hi) <==> AllNear(lv, lo, hi - 1);
      }
    }
  }

  /** One page of device memory: counted, and not listed. */
  lemma FarCounted(v: nat)
    ensures var lv := map[v := Leaf(LIMIT, false, false, false)];
            Count(lv, v, v + 1) == 1 && Collected(Near(lv), v, v + 1, [])
  {
    var lv: map<nat, Leaf> := map[v := Leaf(LIMIT, false, false, false)];
    assert lv[v].ppn == LIMIT;
    assert !AllNear(lv, v, v + 1);
    FilledIff(lv, v, v + 1);
    assert Count(lv, v, v) == 0 && Near(lv) == map[];
  }

  lemma NearSame(lv: map<nat, Leaf>, lo: nat, hi: nat, pages: seq<Slot>)
    requires Collected(Near(lv), lo, hi, pages) && AllNear(lv, lo, hi)
    ensures Collected(lv, lo, hi, pages)
  {
    FilledIff(lv, lo, hi);
    assert forall v :: lo <= v < hi && v in lv ==> v in Near(lv);
  }

  /** A page that keeps an image out of the cache: huge, the kernel's, or identity. */
  ghost predicate Unfit(k: Kernel, m: nat, v: nat)
    reads k, k.st
  {
    m in k.st.mms &&
    match LeafAt(k.st.ts, k.st.mms[m].root, 4, v) case None => false case Some(e) => e.ps || !e.us || e.ppn == v
  }

  /** The first loop of exec_img_register: how many pages, or that the image does not
      qualify. */
  method CountPages(k: Kernel, m: nat, lo: nat, hi: nat) returns (ok: bool, n: nat)
    requires k.Valid() && m in k.st.mms && lo <= hi <= LIMIT
    ensures m in k.view
    ensures ok ==> (forall v :: lo <= v < hi && v in k.view[m] ==> k.view[m][v].ppn != v)
    ensures ok ==> n == Count(k.view[m], lo, hi)
    ensures !ok ==> exists v: nat :: lo <= v < hi && Unfit(k, m, v)
  {
    hide TableStore.Valid, FrameTable.Valid, Views;
    MmRelease.ViewOf(k, m);
    n := 0;
    var v := lo;
    while v < hi
      invariant lo <= v <= hi && n == Count(k.view[m], lo, v)
      invariant forall u :: lo <= u < v && u in k.view[m] ==> k.view[m][u].ppn != u
    {
      var o := ReadLeaf(k, m, v);
      if o.Some? {
        if o.value.ps || !o.value.us || o.value.ppn == v {
          assert Unfit(k, m, v);
          return false, n;
        }
        n := n + 1;
      }
      v := v + 1;
    }
    ok := true;
  }

  /** What the second loop has retained so far. */
  ghost predicate Holding(k: Kernel, m: nat, lo: nat, v: nat, pages: seq<Slot>, refs0: map<nat, nat>)
    reads k, k.ft
  {
    m in k.view && Collected(Near(k.view[m]), lo, v, pages) && k.ft.refs == Bump(refs0, Frames(pages)) &&
    forall j {:trigger pages[j]} :: 0 <= j < |pages| ==> pages[j].ppn in refs0
  }

  /** Some page of the window has a frame that nobody counts. */
  ghost predicate Uncounted(s: State, m: nat, lo: nat, hi: nat) {
    exists v: nat {:trigger Has(s, m, v)} :: lo <= v < hi && Has(s, m, v) && s.view[m][v].ppn !in s.refs
  }

  /** List one mapped page and retain its frame. */
  method CollectOne(k: Kernel, m: nat, lo: nat, v: nat, pages: seq<Slot>, ghost refs0: map<nat, nat>)
    returns (ok: bool, slot: Slot)
    requires k.Valid() && m in k.st.mms && lo <= v < LIMIT && Holding(k, m, lo, v, pages, refs0)
    requires v in Near(k.view[m])
    modifies k.ft
    ensures k.Valid() && k.ft.mem == old(k.ft.mem)
    ensures ok ==> Holding(k, m, lo, v + 1, pages + [slot], refs0)
    ensures !ok ==> k.ft.refs == old(k.ft.refs) && k.view[m][v].ppn !in refs0
  {
    hide TableStore.Valid, FrameTable.Valid, Views, Bump, Frames, Collected;
    var o := ReadLeaf(k, m, v);
    slot := Slot(v, o.value.ppn);
    BumpKeys(refs0, pages);
    var rc := k.ft.Retain(slot.ppn);
    ok := rc == 0;
    if ok {
      BumpOne(refs0, pages, slot);
      CollectMore(Near(k.view[m]), lo, v, pages, slot);
    }
  }

  /** The second loop: list the pages and retain their frames; all or nothing. */
  method CollectPages(k: Kernel, m: nat, lo: nat, hi: nat) returns (ok: bool, pages: seq<Slot>)
    requires k.Valid() && m in k.st.mms && m in k.view && lo <= hi <= LIMIT
    modifies k.ft
    ensures k.Valid() && k.ft.mem == old(k.ft.mem)
    ensures ok ==> Holding(k, m, lo, hi, pages, old(k.ft.refs))
    ensures !ok ==> k.ft.refs == old(k.ft.refs) && Uncounted(k.S(), m, lo, hi)
  {
    hide TableStore.Valid, FrameTable.Valid, Views, Bump, Frames, Collected;
    ghost var refs0 := k.ft.refs;
    Positive(k);
    NoBump(refs0);
    NoneCollected(Near(k.view[m]), lo);
    pages := [];
    var v := lo;
    while v < hi
      invariant lo <= v <= hi && k.Valid() && k.ft.mem == old(k.ft.mem)
      invariant Holding(k, m, lo, v, pages, refs0)
    {
      var yes := MmUnmap.Mapped(k, m, v);
      if yes {
        var slot;
        ok, slot := CollectOne(k, m, lo, v, pages, refs0);
        if !ok {
          ReleasePages(k, pages, refs0);
          assert Has(k.S(), m, v);
          return;
        }
        pages := pages + [slot];
      } else {
        CollectNone(Near(k.view[m]), lo, v, pages);
      }
      v := v + 1;
    }
    ok := true;
  }

  lemma NoneCollected(lv: map<nat, Leaf>, lo: nat)
    ensures Collected(lv, lo, lo, [])
  {
  }

  lemma Positive(k: Kernel)
    requires k.Valid()
    ensures forall f :: f in k.ft.refs ==> k.ft.refs[f] > 0
  {
  }

  lemma BumpKeys(refs: map<nat, nat>, pages: seq<Slot>)
    ensures Bump(refs, Frames(pages)).Keys == refs.Keys
  {
  }

  lemma CollectMore(lv: map<nat, Leaf>, lo: nat, v: nat, pages: seq<Slot>, slot: Slot)
    requires Collected(lv, lo, v, pages) && lo <= v && v in lv && slot == Slot(v, lv[v].ppn)
    ensures Collected(lv, lo, v + 1, pages + [slot])
  {
    var more := pages + [slot];
    assert more[|pages|] == slot;
    forall u | lo <= u < v + 1 && u in lv
      ensures u in Vpns(more)
    {
      if u < v {
        assert u in Vpns(pages);
        var j :| 0 <= j < |pages| && pages[j].v == u;
        assert more[j].v == u;
      }
    }
  }

  lemma CollectNone(lv: map<nat, Leaf>, lo: nat, v: nat, pages: seq<Slot>)
    requires Collected(lv, lo, v, pages) && v !in lv
    ensures Collected(lv, lo, v + 1, pages)
  {
  }

  // ------------------------------------------------------------ registration

  function PagesOf(lv: map<nat, Leaf>, lo: nat, hi: nat): set<nat> { set v | v in lv && lo <= v < hi }

  lemma ProtectNext(s: State, m: nat, lv: map<nat, Leaf>, lo: nat, v: nat)
    requires m in s.view && s.view[m] == ProtectSet(lv, PagesOf(lv, lo, v)) && lo <= v && (v in lv ==> lv[v].owned)
    ensures Protect(s, m, v) == s.(view := s.view[m := ProtectSet(lv, PagesOf(lv, lo, v + 1))])
  {
    var a := ProtectSet(lv, PagesOf(lv, lo, v + 1));
    if v in lv {
      assert s.view[m][v] == lv[v];
      assert a == s.view[m][v := lv[v].(rw := false, cow := true)];
    } else {
      assert a == s.view[m];
      assert s.view[m := a] == s.view;
    }
  }

  lemma NotHuge(k: Kernel, m: nat, v: nat)
    requires k.Valid() && m in k.st.mms && v < LIMIT && m in k.view && (v in k.view[m] ==> k.view[m][v].owned)
    ensures !MmPaths.HugeAt(k.st.ts, k.st.mms[m].root, 4, v)
  {
    if v in k.view[m] {
      ProtectReady(k, m, v);
    } else {
      LeafInView(k.st, m, v);
      assert MmOk(k.st.ts, k.st.info, m, k.st.mms[m]);
      if MmPaths.HugeAt(k.st.ts, k.st.mms[m].root, 4, v) {
        OwnedNotHuge(k.st.ts, k.st.info, m, k.st.mms[m].root, 4, v);
      }
    }
  }

  /** exec_img_demote_owner on a window whose leaves are all owned. */
  method Demote(k: Kernel, m: nat, lo: nat, hi: nat)
    requires k.Valid() && m in k.st.mms && lo <= hi <= LIMIT && m in k.view
    requires forall v :: lo <= v < hi && v in k.view[m] ==> k.view[m][v].owned
    modifies k`view, k.st`ts
    ensures k.Valid() && k.view == old(k.view)[m := ProtectSet(old(k.view[m]), PagesOf(old(k.view[m]), lo, hi))]
  {
    hide TableStore.Valid, FrameTable.Valid, Views, ProtectSet, Protect;
    ghost var lv, view0 := k.view[m], k.view;
    ProtectNone(view0, m, lo);
    var v := lo;
    while v < hi
      invariant lo <= v <= hi && k.Valid() && k.view == view0[m := ProtectSet(lv, PagesOf(lv, lo, v))]
    {
      ProtectedLeaf(lv, lo, v);
      NotHuge(k, m, v);
      ProtectNext(k.S(), m, lv, lo, v);
      k.ProtectLeaf(m, v);
      Overwrite(view0, m, ProtectSet(lv, PagesOf(lv, lo, v)), ProtectSet(lv, PagesOf(lv, lo, v + 1)));
      v := v + 1;
    }
  }

  lemma Overwrite(view: View, m: nat, a: map<nat, Leaf>, b: map<nat, Leaf>)
    ensures view[m := a][m := b] == view[m := b]
  {
  }

  lemma ProtectNone(view: View, m: nat, lo: nat)
    requires m in view
    ensures view == view[m := ProtectSet(view[m], PagesOf(view[m], lo, lo))]
  {
    assert ProtectSet(view[m], PagesOf(view[m], lo, lo)) == view[m];
  }

  lemma ProtectedLeaf(lv: map<nat, Leaf>, lo: nat, v: nat)
    ensures var a := ProtectSet(lv, PagesOf(lv, lo, v)); (v in a <==> v in lv) && (v in lv ==> a[v] == lv[v])
  {
  }

  lemma CollectedSame(lv: map<nat, Leaf>, lo: nat, hi: nat, pages: seq<Slot>)
    requires Collected(lv, lo, hi, pages)
    ensures Vpns(pages) == PagesOf(lv, lo, hi)
  {
    forall v: nat
      ensures v in Vpns(pages) <==> v in PagesOf(lv, lo, hi)
    {
      if v in Vpns(pages) {
        var j :| 0 <= j < |pages| && pages[j].v == v;
      }
    }
  }

  /** Live frames of the window's pages belong to owned leaves. */
  lemma CollectedOwned(s: State, ram: set<nat>, m: nat, lo: nat, hi: nat, pages: seq<Slot>)
    requires Steady(s, ram) && m in s.view && Collected(s.view[m], lo, hi, pages)
    requires forall v :: lo <= v < hi && v in s.view[m] ==> s.view[m][v].ppn != v
    requires forall j {:trigger pages[j]} :: 0 <= j < |pages| ==> pages[j].ppn in s.refs
    ensures forall v :: lo <= v < hi && v in s.view[m] ==> s.view[m][v].owned
    ensures forall j {:trigger pages[j]} :: 0 <= j < |pages| ==> s.view[m][pages[j].v].owned
  {
    forall v | lo <= v < hi && v in s.view[m]
      ensures s.view[m][v].owned
    {
      assert v in Vpns(pages);
      var j :| 0 <= j < |pages| && pages[j].v == v;
      assert s.view[m][v].ppn == pages[j].ppn;
    }
  }

  lemma RegisterTaken(s: State, ram: set<nat>, i: nat, m: nat, img: Image, s': State)
    requires Steady(s, ram) && CanRegister(s, i, m, img) && Idle(s.(refs := Bump(s.refs, Frames(img.pages))), i)
    requires s' == s.(refs := Sink(Bump(s.refs, Frames(img.pages)), Frames(s.cache[i].pages)),
                      cache := s.cache[i := img],
                      snap := s.snap[i := Bytes(s.mem, img.pages)],
                          view := s.view[m := ProtectSet(s.view[m], Vpns(img.pages))])
    ensures Taken(s, ram, [SRegister(i, m, img)], s') && Unmapped(s, i)
  {
    TakenOne(s, ram, SRegister(i, m, img));
    IdleBefore(s, ram, i, Frames(img.pages));
  }

  /** Put the new image into its slot, giving up the old one. */
  method FillSlot(k: Kernel, i: nat, img: Image)
    requires k.Valid() && CacheOk(k) && i < |k.cache| && ImageOk(img) && img.used
    requires k.cacheBytes + 4096 * |img.pages| <= MAX_TOTAL
    requires forall l :: 0 <= l < |k.cache| && l != i && k.cache[l].used ==> k.cache[l].key != img.key
    modifies k`cache, k`cacheBytes, k`snap, k.ft
    ensures k.Valid() && CacheOk(k) && k.ft.mem == old(k.ft.mem)
    ensures k.ft.refs == Sink(old(k.ft.refs), Frames(old(k.cache[i].pages)))
    ensures k.cache == old(k.cache)[i := img] && k.snap == old(k.snap)[i := Bytes(k.ft.mem, img.pages)]
  {
    hide TableStore.Valid, FrameTable.Valid, Views, Sink, Frames;
    ClearPages(k, k.cache[i].pages);
    TotalUpdate(k.cache, i, img);
    k.cacheBytes := k.cacheBytes - 4096 * |k.cache[i].pages| + 4096 * |img.pages|;
    k.cache := k.cache[i := img];
    k.snap := k.snap[i := Bytes(k.ft.mem, img.pages)];
  }

  lemma IdleBumped(s: State, t: State, i: nat)
    requires i < |s.cache| && t.cache == s.cache && t.refs == s.refs && Idle(s, i)
    ensures Idle(t, i)
  {
    forall j | 0 <= j < |t.cache[i].pages|
      ensures Live(t, t.cache[i].pages[j].ppn) == 1
    {
      assert Live(s, s.cache[i].pages[j].ppn) == 1;
    }
  }

  lemma CollectedImage(lv: map<nat, Leaf>, key: nat, lo: nat, hi: nat, pages: seq<Slot>, gen: nat)
    requires Collected(lv, lo, hi, pages) && |pages| <= MAX_PAGES && hi <= LIMIT
    ensures ImageOk(Image(true, key, lo, hi, pages, gen))
  {
  }

  lemma CanRegisterPages(s: State, ram: set<nat>, i: nat, m: nat, lo: nat, hi: nat, img: Image)
    requires Steady(s, ram) && UserMm(s, m) && i < |s.cache| && Collected(s.view[m], lo, hi, img.pages)
    requires forall v :: lo <= v < hi && v in s.view[m] ==> s.view[m][v].ppn != v && s.view[m][v].ppn !in s.shm
    requires forall j {:trigger img.pages[j]} :: 0 <= j < |img.pages| ==> img.pages[j].ppn in s.refs
    ensures CanRegister(s, i, m, img)
  {
    CollectedOwned(s, ram, m, lo, hi, img.pages);
  }

  /** No slot is free, or the key has one. */
  ghost predicate NoRoom(cache: seq<Image>, key: nat) {
    (forall l :: 0 <= l < |cache| ==> cache[l].used) ||
    (exists l :: 0 <= l < |cache| && cache[l].used && cache[l].key == key)
  }

  /** The second half of exec_img_register, and exec_img_demote_owner: take the references,
      find a slot, fill it, write-protect the first user. */
  method Adopt(k: Kernel, m: nat, key: nat, lo: nat, hi: nat)
    returns (done: bool, ghost steps: seq<Step>, ghost slot: nat)
    requires k.Valid() && Steady(k.S(), k.ft.ram) && CacheOk(k) && m in k.st.mms && lo <= hi <= LIMIT
    requires UserMm(k.S(), m)
    requires AllNear(k.view[m], lo, hi)
    requires forall v :: lo <= v < hi && v in k.view[m] ==> k.view[m][v].ppn != v && k.view[m][v].ppn !in k.shm
    requires Count(k.view[m], lo, hi) <= MAX_PAGES && k.cacheBytes + 4096 * Count(k.view[m], lo, hi) <= MAX_TOTAL
    modifies k`view, k`cache, k`cacheBytes, k`generation, k`snap, k.st`ts, k.ft
    ensures k.Valid() && CacheOk(k) && Taken(old(k.S()), k.ft.ram, steps, k.S())
    ensures !done ==> steps == []
    ensures done ==> slot < |k.cache| && steps == [SRegister(slot, m, k.cache[slot])]
    ensures done ==> Collected(old(k.view[m]), lo, hi, k.cache[slot].pages)
    ensures !done ==> Uncounted(k.S(), m, lo, hi) || NoRoom(k.cache, key)
    ensures done ==> slot < |old(k.cache)| && Unmapped(old(k.S()), slot)
  {
    hide TableStore.Valid, FrameTable.Valid, Views, Steady, Taken, Sink, Bump, Frames, Collected, Bytes;
    hide ProtectSet, CanRegister, Idle, ImageOk, Unmapped;
    ghost var s0 := k.S();
    TakenNone(s0, k.ft.ram);
    steps, slot := [], 0;
    var ok, pages := CollectPages(k, m, lo, hi);
    if !ok {
      return false, steps, slot;
    }
    NearSame(k.view[m], lo, hi, pages);
    var r := EvictSlot(k, key);
    if r.None? {
      PositiveIn(s0, k.ft.ram);
      ReleasePages(k, pages, s0.refs);
      return false, steps, slot;
    }
    var i := r.value;
    slot := i;
    var img := Image(true, key, lo, hi, pages, k.generation + 1);
    PagesCounted(k.view[m], lo, hi, pages);
    CollectedImage(k.view[m], key, lo, hi, pages, k.generation + 1);
    CanRegisterPages(s0, k.ft.ram, i, m, lo, hi, img);
    CollectedOwned(s0, k.ft.ram, m, lo, hi, pages);
    IdleBumped(k.S(), s0.(refs := Bump(s0.refs, Frames(pages))), i);
    CollectedSame(k.view[m], lo, hi, pages);
    k.generation := k.generation + 1;
    FillSlot(k, i, img);
    Demote(k, m, lo, hi);
    steps := [SRegister(i, m, img)];
    RegisterTaken(s0, k.ft.ram, i, m, img, k.S());
    done := true;
  }

  lemma PositiveIn(s: State, ram: set<nat>)
    requires Steady(s, ram)
    ensures forall f :: f in s.refs ==> s.refs[f] > 0
  {
  }

  lemma PagesCounted(lv: map<nat, Leaf>, lo: nat, hi: nat, pages: seq<Slot>)
    requires Collected(lv, lo, hi, pages)
    ensures |pages| == Count(lv, lo, hi)
  {
  }

  /** Why an image is not taken into the cache. */
  ghost predicate Refusal(k: Kernel, m: nat, key: nat, lo: nat, hi: nat, eligible: bool)
    requires m in k.view
    reads k, k.st, k.ft
  {
    var n := Count(k.view[m], lo, hi);
    !eligible || lo >= hi || hi - lo > MAX_PAGES || n == 0 || n > MAX_PAGES || k.cacheBytes + 4096 * n > MAX_TOTAL ||
    (exists v: nat :: lo <= v < hi && Unfit(k, m, v)) || Uncounted(k.S(), m, lo, hi) || NoRoom(k.cache, key)
  }

  /** exec_img_register then exec_img_demote_owner, as execve pairs them. eligible is the
      answer of exec_img_seen_bump. The window holds no page above 4 GiB, so that every slot
      counted is filled (FilledIff), and no page of shared memory. */
  method RegisterImage(k: Kernel, m: nat, key: nat, lo: nat, vaHi: nat, eligible: bool)
    returns (done: bool, ghost steps: seq<Step>, ghost slot: nat)
    requires k.Valid() && Steady(k.S(), k.ft.ram) && CacheOk(k) && m in k.st.mms
    requires m in k.view && AllNear(k.view[m], lo, vaHi)
    requires forall v :: lo <= v < vaHi && v in k.view[m] ==> k.view[m][v].ppn !in k.shm
    modifies k`view, k`cache, k`cacheBytes, k`generation, k`snap, k.st`ts, k.ft
    ensures k.Valid() && CacheOk(k) && Taken(old(k.S()), k.ft.ram, steps, k.S())
    ensures !done ==> steps == []
    ensures done ==> eligible && slot < |k.cache| && steps == [SRegister(slot, m, k.cache[slot])]
    ensures done ==> Collected(old(k.view[m]), lo, if vaHi > LIMIT then LIMIT else vaHi, k.cache[slot].pages)
    ensures !done ==> Refusal(k, m, key, lo, if vaHi > LIMIT then LIMIT else vaHi, eligible)
    ensures done ==> slot < |old(k.cache)| && Unmapped(old(k.S()), slot)
  {
    hide TableStore.Valid, FrameTable.Valid, Views, Steady, Taken, Collected, Unmapped;
    MmRelease.ViewOf(k, m);
    ghost var s0 := k.S();
    TakenNone(s0, k.ft.ram);
    steps, slot := [], 0;
    var hi := if vaHi > LIMIT then LIMIT else vaHi;
    if lo >= hi || hi - lo > MAX_PAGES || !eligible {
      return false, steps, slot;
    }
    var ok, n := CountPages(k, m, lo, hi);
    if !ok || n == 0 || n > MAX_PAGES || k.cacheBytes + 4096 * n > MAX_TOTAL {
      return false, steps, slot;
    }
    done, steps, slot := Adopt(k, m, key, lo, hi);
  }

  // ---------------------------------------------------------------- cache hits

  /** The pages of the image below j in the window show the registered bytes. */
  ghost predicate Installed(s: State, m: nat, img: Image, bytes: seq<Page>, b: nat, e: nat, j: nat)
    requires |bytes| == |img.pages|
  {
    forall l {:trigger img.pages[l]} :: 0 <= l < j && l < |img.pages| && b <= img.pages[l].v < e ==>
      var v := img.pages[l].v;
      Has(s, m, v) && Reads(s, m, v) == bytes[l] && s.view[m][v] == Leaf(img.pages[l].ppn, false, true, true)
  }

  /** The pages of the image from j on are not owned yet. */
  ghost predicate Free(s: State, m: nat, img: Image, j: nat) {
    forall l {:trigger img.pages[l]} :: j <= l < |img.pages| ==> Unowned(LeafIn(s, m, img.pages[l].v))
  }

  const CACHED_FLAGS: Entry := NIL.(us := true, cow := true, owned := true)

  lemma ImageMapTaken(s: State, ram: set<nat>, m: nat, i: nat, j: nat, s': State)
    requires Steady(s, ram) && Enabled(s, ram, SImageMap(m, i, j)) && s' == ImageMap(s, m, s.cache[i].pages[j])
    ensures Taken(s, ram, [SImageMap(m, i, j)], s') && Steady(s', ram)
    ensures var v := s.cache[i].pages[j].v; Has(s', m, v) && Reads(s', m, v) == s.snap[i][j]
  {
    TakenOne(s, ram, SImageMap(m, i, j));
    ImageMapSteady(s, ram, m, i, j);
  }

  lemma SlotLive(s: State, ram: set<nat>, i: nat, j: nat)
    requires Steady(s, ram) && i < |s.cache| && j < |s.cache[i].pages|
    ensures s.cache[i].pages[j].ppn in s.refs && i < |s.snap| && |s.snap[i]| == |s.cache[i].pages|
  {
    assert SlotRef(i, j) in Refs(s, s.cache[i].pages[j].ppn);
    Referenced(s, multiset{}, SlotRef(i, j), s.cache[i].pages[j].ppn);
  }

  /** Neither a leaf of m's nor one of the kernel's shows where page v would go. */
  ghost predicate Unrouted(s: State, m: nat, v: nat) { !Has(s, m, v) || !Has(s, KERNEL, v) }

  /** One page of exec_img_map. */
  method MapSlot(k: Kernel, i: nat, j: nat, m: nat) returns (ok: bool, ghost steps: seq<Step>)
    requires k.Valid() && Steady(k.S(), k.ft.ram) && m in k.st.mms && i < |k.cache| && j < |k.cache[i].pages|
    requires k.cache[i].pages[j].v < LIMIT && Unowned(LeafIn(k.S(), m, k.cache[i].pages[j].v))
    modifies k`view, k.st, k.ft
    ensures k.Valid() && SameMms(old(k.st.mms), k.st.mms) && k.st.mms.Keys == old(k.st.mms.Keys)
    ensures k.ft.mem == old(k.ft.mem)
    ensures Taken(old(k.S()), k.ft.ram, steps, k.S()) && steps == if ok then [SImageMap(m, i, j)] else []
    ensures ok ==>
              Enabled(old(k.S()), k.ft.ram, SImageMap(m, i, j)) && k.S() == ImageMap(old(k.S()), m, k.cache[i].pages[j])
    ensures !ok ==> |k.st.heap| == 0 || Unrouted(k.S(), m, k.cache[i].pages[j].v)
  {
    hide TableStore.Valid, Views, Steady, Taken;
    ghost var s0 := k.S();
    MmRelease.ViewOf(k, m);
    var slot := k.cache[i].pages[j];
    SlotLive(s0, k.ft.ram, i, j);
    var kept := k.ft.Retain(slot.ppn);
    assert kept == 0;
    var rc := k.MapShared(m, slot.v, slot.ppn, CACHED_FLAGS);
    ok := rc == 0;
    if ok {
      steps := [SImageMap(m, i, j)];
      ImageMapTaken(s0, k.ft.ram, m, i, j, k.S());
    } else {
      k.ft.Release(slot.ppn);
      RetainRelease(s0, k.ft.ram, slot.ppn);
      TakenNone(s0, k.ft.ram);
      steps := [];
    }
  }

  lemma InstalledNext(s: State, ram: set<nat>, m: nat, i: nat, b: nat, e: nat, j: nat, s': State)
    requires Steady(s, ram) && Enabled(s, ram, SImageMap(m, i, j)) && ImageOk(s.cache[i])
    requires s' == ImageMap(s, m, s.cache[i].pages[j])
    requires i < |s.snap| && |s.snap[i]| == |s.cache[i].pages| && Installed(s, m, s.cache[i], s.snap[i], b, e, j)
    requires Free(s, m, s.cache[i], j)
    ensures Installed(s', m, s.cache[i], s.snap[i], b, e, j + 1) && Free(s', m, s.cache[i], j + 1)
  {
    var img := s.cache[i];
    ImageMapTaken(s, ram, m, i, j, s');
    forall l | 0 <= l < |img.pages| && l != j
      ensures LeafIn(s', m, img.pages[l].v) == LeafIn(s, m, img.pages[l].v)
    {
      assert img.pages[l].v != img.pages[j].v;
    }
  }

  /** exec_img_map: a cache hit shows the address space exactly the registered bytes,
      read-only and copy-on-write. The target owns none of the pages yet. */
  method MapImage(k: Kernel, i: nat, m: nat, b: nat, e: nat) returns (rc: int, ghost steps: seq<Step>)
    requires k.Valid() && Steady(k.S(), k.ft.ram) && CacheOk(k) && m in k.st.mms && i < |k.cache|
    requires Free(k.S(), m, k.cache[i], 0)
    requires |k.snap[i]| == |k.cache[i].pages|
    modifies k`view, k.st, k.ft
    ensures k.Valid() && Taken(old(k.S()), k.ft.ram, steps, k.S()) && SameMms(old(k.st.mms), k.st.mms)
    ensures (rc == 0 || rc == -1) && forall j :: 0 <= j < |steps| ==>
              steps[j].SImageMap? && steps[j].m == m && steps[j].i == i
    ensures rc == 0 ==> Installed(k.S(), m, k.cache[i], k.snap[i], b, e, |k.cache[i].pages|)
    ensures rc == -1 ==> |k.st.heap| == 0 || exists v: nat :: b <= v < e && Unrouted(k.S(), m, v)
  {
    hide TableStore.Valid, FrameTable.Valid, Views, Steady, Taken, Installed, Free, Enabled, ImageMap;
    ghost var s0, mms0 := k.S(), k.st.mms;
    TakenNone(s0, k.ft.ram);
    NothingInstalled(s0, m, k.cache[i], k.snap[i], b, e);
    steps := [];
    var j := 0;
    while j < |k.cache[i].pages|
      invariant j <= |k.cache[i].pages| && k.Valid() && SameMms(mms0, k.st.mms) && k.st.mms.Keys == mms0.Keys
      invariant Taken(s0, k.ft.ram, steps, k.S())
      invariant Installed(k.S(), m, k.cache[i], k.snap[i], b, e, j) && Free(k.S(), m, k.cache[i], j)
      invariant forall l :: 0 <= l < |steps| ==> steps[l].SImageMap? && steps[l].m == m && steps[l].i == i
    {
      var v := k.cache[i].pages[j].v;
      if v < b || v >= e {
        InstalledSkip(k.S(), m, k.cache[i], k.snap[i], b, e, j);
      } else {
        ghost var s, mms1 := k.S(), k.st.mms;
        TakenSteady(s0, k.ft.ram, steps, s);
        FreeAt(s, m, k.cache[i], j);
        ghost var more;
        var ok;
        assert ImageOk(k.cache[i]);
        ok, more := MapSlot(k, i, j, m);
        SameMmsTrans(mms0, mms1, k.st.mms);
        TakenThen(s0, k.ft.ram, steps, s, more, k.S());
        steps := steps + more;
        if !ok {
          return -1, steps;
        }
        InstalledNext(s, k.ft.ram, m, i, b, e, j, k.S());
      }
      j := j + 1;
    }
    rc := 0;
  }

  lemma NothingInstalled(s: State, m: nat, img: Image, bytes: seq<Page>, b: nat, e: nat)
    requires |bytes| == |img.pages|
    ensures Installed(s, m, img, bytes, b, e, 0)
  {
  }

  lemma InstalledSkip(s: State, m: nat, img: Image, bytes: seq<Page>, b: nat, e: nat, j: nat)
    requires |bytes| == |img.pages| && j < |img.pages| && Installed(s, m, img, bytes, b, e, j) && Free(s, m, img, j)
    requires img.pages[j].v < b || img.pages[j].v >= e
    ensures Installed(s, m, img, bytes, b, e, j + 1) && Free(s, m, img, j + 1)
  {
  }

  lemma FreeAt(s: State, m: nat, img: Image, j: nat)
    requires Free(s, m, img, j) && j < |img.pages|
    ensures Unowned(LeafIn(s, m, img.pages[j].v))
  {
  }
}
