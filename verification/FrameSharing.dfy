/**
Who refers to which frame. A frame reference belongs to a leaf marked SOFT_OWNED,
to a slot of the exec image cache, or, inside an operation, to the code that is
about to hand it on (hold). The state here is the abstract view of the address
spaces; its two invariants are conservation of references and copy-on-write
isolation.
*/
module FrameSharing {
  import opened Basics
  import opened PageTables

  type Page = seq<nat>

  datatype Slot = Slot(v: nat, ppn: nat)

  /** exec_img_entry: a cached snapshot; an unused slot has used == false. */
  datatype Image = Image(used: bool, key: nat, lo: nat, hi: nat, pages: seq<Slot>, gen: nat)

  const NO_IMAGE: Image := Image(false, 0, 0, 0, [], 0)

  datatype Ref = MapRef(m: nat, v: nat) | SlotRef(i: nat, j: nat)

  type View = map<nat, map<nat, Leaf>>

  /** view: the user leaves of each address space. refs: the live frames. mem: page
      contents. shm: frames seen under MAP_SHARED. snap: what each cached image held
      when it was registered. */
  datatype State = State(view: View, cache: seq<Image>, refs: map<nat, nat>, mem: map<nat, Page>,
                         shm: set<nat>, snap: seq<seq<Page>>)

  predicate Has(s: State, m: nat, v: nat) { m in s.view && v in s.view[m] }

  function At(mem: map<nat, Page>, p: nat): Page { if p in mem then mem[p] else [] }

  function Live(s: State, f: nat): nat { if f in s.refs then s.refs[f] else 0 }

  function LeafRefs(view: View, f: nat): set<Ref> {
    set m, v | m in view && v in view[m] && view[m][v].owned && view[m][v].ppn == f :: MapRef(m, v)
  }

  function SlotRefs(cache: seq<Image>, f: nat): set<Ref> {
    set i, j | 0 <= i < |cache| && 0 <= j < |cache[i].pages| && cache[i].pages[j].ppn == f :: SlotRef(i, j)
  }

  function Refs(s: State, f: nat): set<Ref> { LeafRefs(s.view, f) + SlotRefs(s.cache, f) }

  /** The reference count of f is the number of its owned leaves and cache slots, plus
      what an operation holds. */
  ghost predicate Counted(s: State, hold: multiset<nat>, f: nat) {
    Live(s, f) == |Refs(s, f)| + hold[f]
  }

  ghost predicate Conserved(s: State, hold: multiset<nat>) {
    (forall f {:trigger Counted(s, hold, f)} :: Counted(s, hold, f)) &&
    (forall f :: f in s.refs ==> s.refs[f] > 0)
  }

  /** A frame under a writable owned leaf has no other reference. */
  ghost predicate Exclusive(s: State, m: nat, v: nat)
    requires Has(s, m, v)
  {
    var l := s.view[m][v];
    l.owned && l.rw && l.ppn !in s.shm ==> Live(s, l.ppn) == 1
  }

  ghost predicate Isolated(s: State) {
    forall m: nat, v: nat {:trigger s.view[m][v]} :: Has(s, m, v) ==> Exclusive(s, m, v)
  }

  /** An unowned leaf names no frame of the pool unless it is the identity. */
  ghost predicate NoStrays(s: State, ram: set<nat>) {
    forall m: nat, v: nat {:trigger s.view[m][v]} :: Has(s, m, v) && !s.view[m][v].owned && s.view[m][v].ppn != v ==>
          s.view[m][v].ppn !in ram
  }

  /** Cached frames are not shared memory and hold what was registered. */
  ghost predicate Pristine(s: State) {
    |s.snap| == |s.cache| &&
    forall i {:trigger s.cache[i]} :: 0 <= i < |s.cache| ==>
      |s.snap[i]| == |s.cache[i].pages| &&
      forall j {:trigger s.cache[i].pages[j]} :: 0 <= j < |s.cache[i].pages| ==>
        s.cache[i].pages[j].ppn !in s.shm && At(s.mem, s.cache[i].pages[j].ppn) == s.snap[i][j]
  }

  /** The kernel is always there and its tables own nothing. */
  ghost predicate KernelBare(s: State) {
    KERNEL in s.view && forall v :: v in s.view[KERNEL] ==> !s.view[KERNEL][v].owned
  }

  /** Only pages below 4 GiB are user pages. */
  ghost predicate Bounded(s: State) {
    forall m: nat, v: nat :: m in s.view && v in s.view[m] ==> v < LIMIT
  }

  ghost predicate Sound(s: State, ram: set<nat>, hold: multiset<nat>) {
    Conserved(s, hold) && NoStrays(s, ram) && Pristine(s) && s.refs.Keys <= ram && KernelBare(s) && Bounded(s)
  }

  /** The state between operations. */
  ghost predicate Steady(s: State, ram: set<nat>) {
    Sound(s, ram, multiset{}) && Isolated(s)
  }

  // --------------------------------------------------------- primitive steps

  /** The reference that a leaf carries. */
  function Owing(o: Option<Leaf>): multiset<nat> {
    if o.Some? && o.value.owned then multiset{o.value.ppn} else multiset{}
  }

  function LeafIn(s: State, m: nat, v: nat): Option<Leaf> {
    if Has(s, m, v) then Some(s.view[m][v]) else None
  }

  function SetLeaf(lv: map<nat, Leaf>, v: nat, o: Option<Leaf>): map<nat, Leaf> {
    if o.Some? then lv[v := o.value] else lv - {v}
  }

  /** Store or clear a leaf. */
  function Install(s: State, m: nat, v: nat, o: Option<Leaf>): State
    requires m in s.view
  {
    s.(view := s.view[m := SetLeaf(s.view[m], v, o)])
  }

  /** frame_retain on a live frame. */
  function Retain(s: State, f: nat): State {
    if f in s.refs then s.(refs := s.refs[f := s.refs[f] + 1]) else s
  }

  /** The counts after frame_release: the frame goes back to the pool with its last
      reference. */
  function Released(refs: map<nat, nat>, f: nat): map<nat, nat> {
    if f !in refs then refs else if refs[f] <= 1 then refs - {f} else refs[f := refs[f] - 1]
  }

  function Release(s: State, f: nat): State { s.(refs := Released(s.refs, f)) }

  /** frame_alloc, with what the page then holds. */
  function Alloc(s: State, f: nat, page: Page): State {
    s.(refs := s.refs[f := 1], mem := s.mem[f := page], shm := s.shm - {f})
  }

  predicate OwnsFrame(o: Option<Leaf>, f: nat) { o.Some? && o.value.owned && o.value.ppn == f }

  lemma LeafRefsPut(view: View, m: nat, v: nat, o: Option<Leaf>, f: nat)
    requires m in view
    ensures var view' := view[m := SetLeaf(view[m], v, o)];
            LeafRefs(view', f) - {MapRef(m, v)} == LeafRefs(view, f) - {MapRef(m, v)} &&
            (MapRef(m, v) in LeafRefs(view', f) <==> OwnsFrame(o, f))
  {
    var view' := view[m := SetLeaf(view[m], v, o)];
    forall r | r != MapRef(m, v)
      ensures r in LeafRefs(view', f) <==> r in LeafRefs(view, f)
    {
      if r.MapRef? {
        assert r in LeafRefs(view, f) <==>
              r.m in view && r.v in view[r.m] && view[r.m][r.v].owned && view[r.m][r.v].ppn == f;
      }
    }
  }

  lemma SwapOne<T>(a: set<T>, b: set<T>, c: set<T>, r: T)
    requires b - {r} == a - {r} && r !in c
    ensures |b + c| - (if r in b then 1 else 0) == |a + c| - (if r in a then 1 else 0)
  {
    Without(a + c, r);
    Without(b + c, r);
    assert (b + c) - {r} == (b - {r}) + c;
    assert (a + c) - {r} == (a - {r}) + c;
  }

  lemma OwingCount(o: Option<Leaf>, f: nat)
    ensures Owing(o)[f] == if OwnsFrame(o, f) then 1 else 0
  {
  }

  lemma LeafRefIn(s: State, m: nat, v: nat, f: nat)
    ensures MapRef(m, v) in LeafRefs(s.view, f) <==> OwnsFrame(LeafIn(s, m, v), f)
    ensures MapRef(m, v) !in SlotRefs(s.cache, f)
  {
  }

  lemma InstallRefs(s: State, m: nat, v: nat, o: Option<Leaf>, f: nat)
    requires m in s.view
    ensures |Refs(Install(s, m, v, o), f)| ==
            |Refs(s, f)| - (if OwnsFrame(LeafIn(s, m, v), f) then 1 else 0) + (if OwnsFrame(o, f) then 1 else 0)
  {
    var view' := s.view[m := SetLeaf(s.view[m], v, o)];
    assert Refs(Install(s, m, v, o), f) == LeafRefs(view', f) + SlotRefs(s.cache, f);
    LeafRefsPut(s.view, m, v, o, f);
    LeafRefIn(s, m, v, f);
    SwapOne(LeafRefs(s.view, f), LeafRefs(view', f), SlotRefs(s.cache, f), MapRef(m, v));
  }

  /** Storing a leaf takes its reference from the ones in transit and gives back the
      reference of the leaf it replaces. */
  lemma InstallConserved(s: State, hold: multiset<nat>, m: nat, v: nat, o: Option<Leaf>)
    requires Conserved(s, hold) && m in s.view && Owing(o) <= hold + Owing(LeafIn(s, m, v))
    ensures Conserved(Install(s, m, v, o), hold + Owing(LeafIn(s, m, v)) - Owing(o))
  {
    var s', hold' := Install(s, m, v, o), hold + Owing(LeafIn(s, m, v)) - Owing(o);
    forall f
      ensures Counted(s', hold', f)
    {
      assert Counted(s, hold, f);
      InstallRefs(s, m, v, o, f);
      OwingCount(o, f);
      OwingCount(LeafIn(s, m, v), f);
    }
  }

  lemma RetainConserved(s: State, hold: multiset<nat>, f: nat)
    requires Conserved(s, hold) && f in s.refs
    ensures Conserved(Retain(s, f), hold + multiset{f})
  {
    CountsOnly(s, hold, Retain(s, f), hold + multiset{f});
  }

  lemma ReleaseConserved(s: State, hold: multiset<nat>, f: nat)
    requires Conserved(s, hold) && f in hold
    ensures f in s.refs && Conserved(Release(s, f), hold - multiset{f})
  {
    assert Counted(s, hold, f);
    CountsOnly(s, hold, Release(s, f), hold - multiset{f});
  }

  lemma AllocConserved(s: State, hold: multiset<nat>, f: nat, page: Page)
    requires Conserved(s, hold) && f !in s.refs
    ensures Conserved(Alloc(s, f, page), hold + multiset{f}) && hold[f] == 0
  {
    assert Counted(s, hold, f);
    CountsOnly(s, hold, Alloc(s, f, page), hold + multiset{f});
  }

  lemma CountsOnly(s: State, hold: multiset<nat>, s': State, hold': multiset<nat>)
    requires Conserved(s, hold) && s'.view == s.view && s'.cache == s.cache
    requires forall f {:trigger Live(s', f)} :: Live(s', f) - hold'[f] == Live(s, f) - hold[f]
    requires forall f :: f in s'.refs ==> s'.refs[f] > 0
    ensures Conserved(s', hold')
  {
    forall f
      ensures Counted(s', hold', f)
    {
      assert Counted(s, hold, f);
      assert Live(s', f) - hold'[f] == Live(s, f) - hold[f];
      assert Refs(s', f) == Refs(s, f);
    }
  }

  /** The frames a cached image holds, with multiplicity. */
  function Frames(pages: seq<Slot>): multiset<nat> {
    if pages == [] then multiset{} else Frames(pages[..|pages| - 1]) + multiset{pages[|pages| - 1].ppn}
  }

  function ImageRefs(i: nat, pages: seq<Slot>, f: nat): set<Ref> {
    set j: nat | j < |pages| && pages[j].ppn == f :: SlotRef(i, j)
  }

  lemma {:induction false} ImageCount(i: nat, pages: seq<Slot>, f: nat)
    ensures |ImageRefs(i, pages, f)| == Frames(pages)[f]
  {
    if pages != [] {
      var n := |pages| - 1;
      ImageCount(i, pages[..n], f);
      var a, b, r := ImageRefs(i, pages, f), ImageRefs(i, pages[..n], f), SlotRef(i, n);
      assert r in a <==> pages[n].ppn == f;
      assert a - {r} == b;
      Without(a, r);
    } else {
      assert ImageRefs(i, pages, f) == {};
    }
  }

  /** Give cache slot i another image. */
  function SetImage(s: State, i: nat, img: Image, bytes: seq<Page>): State
    requires i < |s.cache| && i < |s.snap|
  {
    s.(cache := s.cache[i := img], snap := s.snap[i := bytes])
  }

  lemma SlotSplit(s: State, i: nat, img: Image, f: nat)
    requires i < |s.cache|
    ensures var c' := s.cache[i := img];
            SlotRefs(c', f) - ImageRefs(i, img.pages, f) == SlotRefs(s.cache, f) - ImageRefs(i, s.cache[i].pages, f) &&
            ImageRefs(i, img.pages, f) <= SlotRefs(c', f) && ImageRefs(i, s.cache[i].pages, f) <= SlotRefs(s.cache, f)
  {
    var c' := s.cache[i := img];
    forall r: Ref
      ensures r in SlotRefs(c', f) - ImageRefs(i, img.pages, f) <==>
                r in SlotRefs(s.cache, f) - ImageRefs(i, s.cache[i].pages, f)
    {
      if r.SlotRef? {
        assert r in SlotRefs(c', f) <==> r.i < |c'| && r.j < |c'[r.i].pages| && c'[r.i].pages[r.j].ppn == f;
        assert r in SlotRefs(s.cache, f) <==>
              r.i < |s.cache| && r.j < |s.cache[r.i].pages| && s.cache[r.i].pages[r.j].ppn == f;
      }
    }
  }

  lemma Replace<T>(a: set<T>, b: set<T>, x: set<T>, y: set<T>, c: set<T>)
    requires a - x == b - y && x <= a && y <= b && a !! c && b !! c
    ensures |c + a| - |x| == |c + b| - |y|
  {
    var rest := c + (a - x);
    assert c + a == rest + x && rest !! x;
    assert c + b == rest + y && rest !! y;
  }

  /** The new image's references come out of the ones in transit, the old image's go
      into them. */
  lemma SetImageConserved(s: State, hold: multiset<nat>, i: nat, img: Image, bytes: seq<Page>)
    requires Conserved(s, hold) && i < |s.cache| && i < |s.snap| && Frames(img.pages) <= hold + Frames(s.cache[i].pages)
    ensures Conserved(SetImage(s, i, img, bytes), hold + Frames(s.cache[i].pages) - Frames(img.pages))
  {
    var s', hold' := SetImage(s, i, img, bytes), hold + Frames(s.cache[i].pages) - Frames(img.pages);
    forall f
      ensures Counted(s', hold', f)
    {
      assert Counted(s, hold, f);
      SlotSplit(s, i, img, f);
      ImageCount(i, img.pages, f);
      ImageCount(i, s.cache[i].pages, f);
      Replace(SlotRefs(s'.cache, f), SlotRefs(s.cache, f), ImageRefs(i, img.pages, f),
              ImageRefs(i, s.cache[i].pages, f),
              LeafRefs(s.view, f));
    }
  }

  lemma InstallSound(s: State, ram: set<nat>, hold: multiset<nat>, m: nat, v: nat, o: Option<Leaf>)
    requires Sound(s, ram, hold) && m in s.view && Owing(o) <= hold + Owing(LeafIn(s, m, v))
    requires m != KERNEL && v < LIMIT && (o.Some? && !o.value.owned && o.value.ppn != v ==> o.value.ppn !in ram)
    ensures Sound(Install(s, m, v, o), ram, hold + Owing(LeafIn(s, m, v)) - Owing(o))
  {
    InstallConserved(s, hold, m, v, o);
  }

  lemma RetainSound(s: State, ram: set<nat>, hold: multiset<nat>, f: nat)
    requires Sound(s, ram, hold) && f in s.refs
    ensures Sound(Retain(s, f), ram, hold + multiset{f})
  {
    RetainConserved(s, hold, f);
  }

  lemma ReleaseSound(s: State, ram: set<nat>, hold: multiset<nat>, f: nat)
    requires Sound(s, ram, hold) && f in hold
    ensures f in s.refs && Sound(Release(s, f), ram, hold - multiset{f})
  {
    ReleaseConserved(s, hold, f);
  }

  lemma AllocSound(s: State, ram: set<nat>, hold: multiset<nat>, f: nat, page: Page)
    requires Sound(s, ram, hold) && f !in s.refs && f in ram
    ensures Sound(Alloc(s, f, page), ram, hold + multiset{f}) && hold[f] == 0
  {
    AllocConserved(s, hold, f, page);
    forall i: nat, j: nat | i < |s.cache| && j < |s.cache[i].pages|
      ensures s.cache[i].pages[j].ppn in s.refs
    {
      Referenced(s, hold, SlotRef(i, j), s.cache[i].pages[j].ppn);
    }
  }

  /** A referenced frame is live, so it is not in the pool. */
  lemma Referenced(s: State, hold: multiset<nat>, r: Ref, f: nat)
    requires Conserved(s, hold) && r in Refs(s, f)
    ensures f in s.refs
    ensures s.refs[f] == 1 ==> Refs(s, f) == {r} && hold[f] == 0
  {
    assert Counted(s, hold, f);
    Without(Refs(s, f), r);
    if s.refs[f] == 1 {
      assert |Refs(s, f) - {r}| == 0;
    }
  }

  /** No leak: a live frame is referenced by a leaf, by the cache or in transit. */
  lemma NoLeak(s: State, hold: multiset<nat>, f: nat)
    requires Conserved(s, hold) && f in s.refs && hold[f] == 0
    ensures exists r :: r in Refs(s, f)
  {
    assert Counted(s, hold, f);
    assert |Refs(s, f)| > 0;
    var r :| r in Refs(s, f);
  }

  // ------------------------------------------------------------- isolation

  /** A leaf that demands to be the only reference to its frame. */
  predicate Demanding(s: State, l: Leaf) { l.owned && l.rw && l.ppn !in s.shm }

  lemma InstallIsolated(s: State, m: nat, v: nat, o: Option<Leaf>)
    requires Isolated(s) && m in s.view
    requires o.Some? && Demanding(s, o.value) ==> Live(s, o.value.ppn) == 1
    ensures Isolated(Install(s, m, v, o))
  {
    var s' := Install(s, m, v, o);
    forall m', v' | Has(s', m', v')
      ensures Exclusive(s', m', v')
    {
      if m' == m && v' == v {
      } else {
        assert s'.view[m'][v'] == s.view[m'][v'];
        assert Exclusive(s, m', v');
      }
    }
  }

  /** A frame with another reference in transit is under no demanding leaf. */
  lemma NotDemanded(s: State, hold: multiset<nat>, f: nat, m: nat, v: nat)
    requires Conserved(s, hold) && Isolated(s) && f in hold && Has(s, m, v) && s.view[m][v].ppn == f
    ensures !Demanding(s, s.view[m][v])
  {
    assert Counted(s, hold, f);
    if Demanding(s, s.view[m][v]) {
      assert MapRef(m, v) in Refs(s, f);
      Referenced(s, hold, MapRef(m, v), f);
    }
  }

  lemma ReleaseIsolated(s: State, hold: multiset<nat>, f: nat)
    requires Conserved(s, hold) && Isolated(s) && f in hold
    ensures Isolated(Release(s, f))
  {
    var s' := Release(s, f);
    forall m, v | Has(s', m, v)
      ensures Exclusive(s', m, v)
    {
      assert Exclusive(s, m, v);
      if s.view[m][v].ppn == f {
        NotDemanded(s, hold, f, m, v);
      }
    }
  }

  /** Retaining a frame that some leaf or slot refers to without demanding it alone. */
  lemma RetainIsolated(s: State, hold: multiset<nat>, f: nat, r: Ref)
    requires Conserved(s, hold) && Isolated(s) && r in Refs(s, f)
    requires r.MapRef? && Has(s, r.m, r.v) ==> !Demanding(s, s.view[r.m][r.v])
    ensures Isolated(Retain(s, f))
  {
    var s' := Retain(s, f);
    forall m, v | Has(s', m, v)
      ensures Exclusive(s', m, v)
    {
      assert Exclusive(s, m, v);
      if s.view[m][v].ppn == f && Demanding(s, s.view[m][v]) {
        assert MapRef(m, v) in Refs(s, f);
        Referenced(s, hold, MapRef(m, v), f);
      }
    }
  }

  lemma AllocIsolated(s: State, hold: multiset<nat>, f: nat, page: Page)
    requires Conserved(s, hold) && Isolated(s) && f !in s.refs
    ensures Isolated(Alloc(s, f, page))
  {
    var s' := Alloc(s, f, page);
    forall m, v | Has(s', m, v)
      ensures Exclusive(s', m, v)
    {
      assert Exclusive(s, m, v);
      if s.view[m][v].ppn == f && s.view[m][v].owned {
        assert MapRef(m, v) in Refs(s, f);
        Referenced(s, hold, MapRef(m, v), f);
      }
    }
  }

  /** What address space m reads at page v. */
  function Reads(s: State, m: nat, v: nat): Page
    requires Has(s, m, v)
  {
    At(s.mem, s.view[m][v].ppn)
  }

  /** A user page: an owned frame, or at least not the kernel's identity leaf. */
  predicate Private(s: State, m: nat, v: nat) {
    Has(s, m, v) && (s.view[m][v].owned || s.view[m][v].ppn != v)
  }

  function Store(s: State, m: nat, v: nat, page: Page): State
    requires Has(s, m, v)
  {
    s.(mem := s.mem[s.view[m][v].ppn := page])
  }

  /** A write through a writable owned leaf outside shared memory is seen through
      no other leaf and by no cached image. */
  lemma WriteIsolated(s: State, ram: set<nat>, m: nat, v: nat, page: Page)
    requires Steady(s, ram) && Has(s, m, v)
    requires var l := s.view[m][v]; l.owned && l.rw && l.ppn !in s.shm
    ensures var s' := Store(s, m, v, page);
            Steady(s', ram) && Reads(s', m, v) == page &&
            forall m', v' :: Private(s, m', v') && !(m' == m && v' == v) ==> Reads(s', m', v') == Reads(s, m', v')
  {
    var l := s.view[m][v];
    var s' := Store(s, m, v, page);
    var r := MapRef(m, v);
    assert r in Refs(s, l.ppn);
    Referenced(s, multiset{}, r, l.ppn);
    assert Exclusive(s, m, v);
    forall m', v' | Private(s, m', v') && !(m' == m && v' == v)
      ensures s.view[m'][v'].ppn != l.ppn
    {
      assert s.view[m'][v'].owned && s.view[m'][v'].ppn == l.ppn ==> MapRef(m', v') in Refs(s, l.ppn);
    }
    CountsOnly(s, multiset{}, s', multiset{});
    forall i: nat, j: nat | i < |s.cache| && j < |s.cache[i].pages|
      ensures s.cache[i].pages[j].ppn != l.ppn
    {
      assert s.cache[i].pages[j].ppn == l.ppn ==> SlotRef(i, j) in Refs(s, l.ppn);
    }
    assert Pristine(s');
    assert forall m', v' :: Has(s', m', v') ==> (Exclusive(s, m', v') ==> Exclusive(s', m', v'));
  }
}
