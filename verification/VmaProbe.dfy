/**
Fork's snapshot of the memory areas: sorted once, then probed by binary search for every
2 MiB chunk and every page.
*/
module VmaProbe {

  datatype Kind = Mmap | MmapLazy | ElfLoad | Shm | Other

  datatype Vma = Vma(used: bool, addr: nat, len: nat, kind: Kind, file: bool)

  /** v->addr + v->len in 64 bits. */
  function End(x: Vma): nat { (x.addr + x.len) % 0x1_0000_0000_0000_0000 }

  /** MV_SNAP_VMA, _SHARED, _LAZY_FILE, _LAZY_ANON, and the mm-only guard. */
  datatype Flags = Flags(vma: bool, shared: bool, lazyFile: bool, lazyAnon: bool, guard: bool)

  const NONE: Flags := Flags(false, false, false, false, false)

  // -------------------------------------------------------------------- sort

  /** The order of the snapshot: by address, then by length. */
  predicate After(x: Vma, y: Vma) { x.addr > y.addr || (x.addr == y.addr && x.len > y.len) }

  ghost predicate Ordered(v: seq<Vma>) {
    forall i, j :: 0 <= i < j < |v| ==> !After(v[i], v[j])
  }

  /** x put in its place, after the entries it does not come before. */
  function Insert(s: seq<Vma>, x: Vma): seq<Vma> {
    if s == [] || !After(s[|s| - 1], x) then s + [x] else Insert(s[..|s| - 1], x) + [s[|s| - 1]]
  }

  function Sorted(s: seq<Vma>): seq<Vma> {
    if s == [] then [] else Insert(Sorted(s[..|s| - 1]), s[|s| - 1])
  }

  lemma {:induction false} InsertIs(s: seq<Vma>, x: Vma, j: nat)
    requires j <= |s| && (j > 0 ==> !After(s[j - 1], x)) && forall p :: j <= p < |s| ==> After(s[p], x)
    ensures Insert(s, x) == s[..j] + [x] + s[j..]
  {
    hide After;
    if j == |s| {
      assert s[..j] == s;
    } else {
      var t := s[..|s| - 1];
      InsertIs(t, x, j);
      assert s[j..] == t[j..] + [s[|s| - 1]] && s[..j] == t[..j];
    }
  }

  lemma {:induction false} InsertOrdered(s: seq<Vma>, x: Vma)
    requires Ordered(s)
    ensures Ordered(Insert(s, x)) && multiset(Insert(s, x)) == multiset(s) + multiset{x}
  {
    if s != [] && After(s[|s| - 1], x) {
      var t := s[..|s| - 1];
      assert s == t + [s[|s| - 1]];
      InsertOrdered(t, x);
      var r := Insert(t, x);
      forall i | 0 <= i < |r|
        ensures !After(r[i], s[|s| - 1])
      {
        assert r[i] in multiset(t) + multiset{x};
        assert r[i] == x || r[i] in t;
      }
    }
  }

  lemma {:induction false} SortedOrdered(s: seq<Vma>)
    ensures Ordered(Sorted(s)) && multiset(Sorted(s)) == multiset(s)
  {
    assert Ordered([]);
    hide After, Insert, Ordered;
    if s != [] {
      SortedOrdered(s[..|s| - 1]);
      InsertOrdered(Sorted(s[..|s| - 1]), s[|s| - 1]);
      assert s == s[..|s| - 1] + [s[|s| - 1]];
    }
  }

  /** mm_mv_snapshot_sort: insertion sort of the first count entries, in place. */
  method SnapshotSort(v: array<Vma>, count: nat)
    requires count <= v.Length
    modifies v
    ensures v[..count] == Sorted(old(v[..count])) && v[count..] == old(v[count..])
    ensures Ordered(v[..count]) && multiset(v[..count]) == multiset(old(v[..count]))
  {
    hide Insert;
    ghost var was := v[..];
    var i := 1;
    if count > 0 {
      assert v[..1] == Insert([], v[0]) == Sorted(was[..1]) by {
        OneSorted(v[..1]);
      }
    }
    while i < count
      invariant 1 <= i && (i <= count || (count == 0 && v[..] == was))
      invariant count > 0 ==> v[..i] == Sorted(was[..i])
      invariant count > 0 ==> v[i..] == was[i..]
    {
      InsertOne(v, i);
      assert was[..i + 1][..i] == was[..i] && was[i..][0] == was[i] && was[i..][1..] == was[i + 1..];
      i := i + 1;
    }
    assert old(v[..count]) == was[..count];
    SortedOrdered(was[..count]);
  }

  lemma OneSorted(s: seq<Vma>)
    requires |s| == 1
    ensures Sorted(s) == s == Insert([], s[0])
  {
    assert Sorted(s[..0]) == [];
  }

  /** Shift the entries that come after item up by one place. */
  method ShiftUp(v: array<Vma>, i: nat, item: Vma, ghost was: seq<Vma>) returns (j: nat)
    requires i < v.Length && item == v[i] && was == v[..]
    modifies v
    ensures j <= i && (j > 0 ==> !After(was[j - 1], item))
    ensures forall p {:trigger v[p]} :: 0 <= p < v.Length ==> v[p] == if j < p <= i then was[p - 1] else was[p]
    ensures forall p :: j <= p < i ==> After(was[p], item)
  {
    hide After;
    j := i;
    while j > 0 && After(v[j - 1], item)
      invariant 0 <= j <= i
      invariant forall p {:trigger v[p]} :: 0 <= p < v.Length ==> v[p] == if j < p <= i then was[p - 1] else was[p]
      invariant forall p :: j <= p < i ==> After(was[p], item)
    {
      assert v[j - 1] == was[j - 1];
      v[j] := v[j - 1];
      j := j - 1;
    }
    assert j > 0 ==> v[j - 1] == was[j - 1];
  }

  /** One round: put entry i in its place among the sorted entries before it. */
  method InsertOne(v: array<Vma>, i: nat)
    requires i < v.Length
    modifies v
    ensures v[..i + 1] == Insert(old(v[..i]), old(v[i])) && v[i + 1..] == old(v[i + 1..])
  {
    hide After, Insert;
    ghost var was := v[..];
    var item := v[i];
    var j := ShiftUp(v, i, item, was);
    v[j] := item;
    InsertIs(was[..i], item, j);
    assert v[..i + 1] == was[..i][..j] + [item] + was[..i][j..];
  }

  // ------------------------------------------------------------------- probe

  /** The area is in use and meets [lo, hi). */
  predicate Hits(x: Vma, lo: nat, hi: nat) { x.used && End(x) > x.addr && lo < End(x) && hi > x.addr }

  predicate Within(b: nat, lo: nat, hi: nat) { lo <= b < hi }

  /** To meet a range is to share a byte with it. */
  lemma HitsIff(x: Vma, lo: nat, hi: nat)
    requires lo < hi
    ensures Hits(x, lo, hi) <==> x.used && exists b :: Within(b, x.addr, End(x)) && Within(b, lo, hi)
  {
    if Hits(x, lo, hi) {
      var b := if lo < x.addr then x.addr else lo;
      assert Within(b, x.addr, End(x)) && Within(b, lo, hi);
    }
  }

  predicate LazyFile(x: Vma) { x.file && !x.kind.Other? }

  predicate LazyAnon(x: Vma) { x.kind.MmapLazy? && !x.file }

  /** What testing every area says; the first gCnt entries belong to the owner, the rest
      only to the address space. */
  ghost predicate Scanned(v: seq<Vma>, gCnt: nat, lo: nat, hi: nat, f: Flags) {
    (f.vma <==> exists i {:trigger v[i]} :: 0 <= i < |v| && i < gCnt && Hits(v[i], lo, hi)) &&
    (f.shared <==> exists i {:trigger v[i]} :: 0 <= i < |v| && Hits(v[i], lo, hi) && v[i].kind.Shm?) &&
    (f.lazyFile <==> exists i {:trigger v[i]} :: 0 <= i < |v| && i < gCnt && Hits(v[i], lo, hi) && LazyFile(v[i])) &&
    (f.lazyAnon <==> exists i {:trigger v[i]} :: 0 <= i < |v| && i < gCnt && Hits(v[i], lo, hi) && LazyAnon(v[i])) &&
    (f.guard <==> exists i {:trigger v[i]} :: 0 <= i < |v| && i >= gCnt && Hits(v[i], lo, hi))
  }

  /** The areas do not wrap around, and any two of them are apart or cover the same range:
      an area can be in the snapshot twice, once for its owner and once for the address space. */
  ghost predicate Nested(v: seq<Vma>) {
    (forall x :: x in v ==> x.addr + x.len < 0x1_0000_0000_0000_0000) &&
    (forall x, y :: x in v && y in v ==>
      (x.addr == y.addr && x.len == y.len) || End(x) <= y.addr || End(y) <= x.addr)
  }

  /** In an ordered snapshot of such areas the ends are in order too. */
  lemma EndsFirst(v: seq<Vma>, i: nat, j: nat)
    requires Ordered(v) && Nested(v) && i < j < |v|
    ensures End(v[i]) <= End(v[j])
  {
    assert !After(v[i], v[j]) && v[i] in v && v[j] in v;
  }

  /** What one area that meets the range adds. */
  function Add(f: Flags, x: Vma, mine: bool): Flags {
    if mine then Flags(true, f.shared || x.kind.Shm?, f.lazyFile || LazyFile(x), f.lazyAnon || LazyAnon(x), f.guard)
    else Flags(f.vma, f.shared || x.kind.Shm?, f.lazyFile, f.lazyAnon, true)
  }

  /** The scan of the first n areas. */
  lemma ScanStep(v: seq<Vma>, n: nat, gCnt: nat, lo: nat, hi: nat, f: Flags)
    requires n < |v| && Scanned(v[..n], gCnt, lo, hi, f)
    ensures Scanned(v[..n + 1], gCnt, lo, hi, if Hits(v[n], lo, hi) then Add(f, v[n], n < gCnt) else f)
  {
    var w := v[..n + 1];
    assert forall i :: 0 <= i < n ==> w[i] == v[..n][i];
    assert w[n] == v[n];
  }

  lemma ScanNothing(v: seq<Vma>, n: nat, gCnt: nat, lo: nat, hi: nat)
    requires n <= |v| && forall i :: 0 <= i < n ==> !Hits(v[i], lo, hi)
    ensures Scanned(v[..n], gCnt, lo, hi, NONE)
  {
  }

  /** Areas from n on do not meet the range. */
  lemma ScanRest(v: seq<Vma>, n: nat, gCnt: nat, lo: nat, hi: nat, f: Flags)
    requires n <= |v| && Scanned(v[..n], gCnt, lo, hi, f) && forall i :: n <= i < |v| ==> !Hits(v[i], lo, hi)
    ensures Scanned(v, gCnt, lo, hi, f)
  {
    assert forall i :: 0 <= i < n ==> v[..n][i] == v[i];
  }

  /** The binary search of mm_mv_probe: the first area that ends after lo. */
  method FirstEndingAfter(v: seq<Vma>, lo: nat) returns (left: nat)
    requires Ordered(v) && Nested(v)
    ensures left <= |v| && forall i :: 0 <= i < left ==> End(v[i]) <= lo
  {
    hide End, Ordered, Nested;
    left := 0;
    var right := |v|;
    while left < right
      invariant 0 <= left <= right <= |v|
      invariant forall i :: 0 <= i < left ==> End(v[i]) <= lo
    {
      var mid := left + (right - left) / 2;
      if End(v[mid]) <= lo {
        forall i | 0 <= i < mid
          ensures End(v[i]) <= lo
        {
          EndsFirst(v, i, mid);
        }
        left := mid + 1;
      } else {
        right := mid;
      }
    }
  }

  lemma NoHitsBefore(v: seq<Vma>, n: nat, lo: nat, hi: nat)
    requires n <= |v| && forall i :: 0 <= i < n ==> End(v[i]) <= lo
    ensures forall i :: 0 <= i < n ==> !Hits(v[i], lo, hi)
  {
  }

  lemma NoHitsAfter(v: seq<Vma>, n: nat, lo: nat, hi: nat)
    requires Ordered(v) && n <= |v| && (n < |v| ==> v[n].addr >= hi)
    ensures forall i :: n <= i < |v| ==> !Hits(v[i], lo, hi)
  {
    forall i | n < i < |v|
      ensures v[i].addr >= hi
    {
      assert !After(v[n], v[i]);
    }
  }

  /** mm_mv_probe on an ordered snapshot: the same answer as testing every area. */
  method Probe(v: seq<Vma>, gCnt: nat, lo: nat, hi: nat) returns (f: Flags)
    requires Ordered(v) && Nested(v)
    ensures Scanned(v, gCnt, lo, hi, f)
  {
    hide Scanned, Hits, End, Add, Ordered, Nested;
    var i := FirstEndingAfter(v, lo);
    f := NONE;
    NoHitsBefore(v, i, lo, hi);
    ScanNothing(v, i, gCnt, lo, hi);
    while i < |v| && v[i].addr < hi
      invariant i <= |v| && Scanned(v[..i], gCnt, lo, hi, f)
    {
      ScanStep(v, i, gCnt, lo, hi, f);
      if Hits(v[i], lo, hi) {
        f := Add(f, v[i], i < gCnt);
      }
      i := i + 1;
    }
    NoHitsAfter(v, i, lo, hi);
    ScanRest(v, i, gCnt, lo, hi, f);
  }

  lemma SameMembers(v: seq<Vma>, w: seq<Vma>)
    requires multiset(v) == multiset(w)
    ensures |v| == |w| && forall x :: x in v <==> x in w
  {
    assert |v| == |multiset(v)| && |w| == |multiset(w)|;
    assert forall x :: x in v <==> x in multiset(v);
    assert forall x :: x in w <==> x in multiset(w);
  }

  /** The answer does not depend on the order of the areas. */
  lemma ScanAnyOrder(v: seq<Vma>, w: seq<Vma>, lo: nat, hi: nat, f: Flags)
    requires multiset(v) == multiset(w) && Scanned(v, |v|, lo, hi, f)
    ensures |v| == |w| && Scanned(w, |w|, lo, hi, f)
  {
    SameMembers(v, w);
    assert forall i :: 0 <= i < |v| ==> v[i] in w;
    assert forall i :: 0 <= i < |w| ==> w[i] in v;
  }

  /** Sorting a snapshot and probing it answers as testing every area of it does. */
  method SortThenProbe(v: array<Vma>, count: nat, lo: nat, hi: nat) returns (f: Flags)
    requires count <= v.Length && Nested(v[..count])
    modifies v
    ensures Scanned(old(v[..count]), count, lo, hi, f)
  {
    ghost var was := v[..count];
    SnapshotSort(v, count);
    SameMembers(was, v[..count]);
    f := Probe(v[..count], count, lo, hi);
    ScanAnyOrder(v[..count], was, lo, hi, f);
  }

  /** Whether some area meets the range, and whether a MAP_SHARED one does, survives the sort
      however the snapshot is split. */
  lemma HitsAnyOrder(v: seq<Vma>, w: seq<Vma>, gCnt: nat, lo: nat, hi: nat, f: Flags, g: Flags)
    requires multiset(v) == multiset(w) && Scanned(v, gCnt, lo, hi, f) && Scanned(w, gCnt, lo, hi, g)
    ensures (f.vma || f.guard <==> g.vma || g.guard) && (f.shared <==> g.shared)
  {
    SameMembers(v, w);
    assert forall i :: 0 <= i < |v| ==> v[i] in w;
    assert forall i :: 0 <= i < |w| ==> w[i] in v;
  }

  const FIRST: Vma := Vma(true, 0x40_0000, 0x1000, Mmap, false)
  const SECOND: Vma := Vma(true, 0x80_0000, 0x1000, Mmap, false)

  lemma ScanFour(v: seq<Vma>, gCnt: nat, lo: nat, hi: nat, f1: Flags, f2: Flags, f3: Flags, f4: Flags)
    requires |v| == 4
    requires f1 == if Hits(v[0], lo, hi) then Add(NONE, v[0], 0 < gCnt) else NONE
    requires f2 == if Hits(v[1], lo, hi) then Add(f1, v[1], 1 < gCnt) else f1
    requires f3 == if Hits(v[2], lo, hi) then Add(f2, v[2], 2 < gCnt) else f2
    requires f4 == if Hits(v[3], lo, hi) then Add(f3, v[3], 3 < gCnt) else f3
    ensures Scanned(v, gCnt, lo, hi, f4)
  {
    hide Scanned, Hits, Add;
    ScanNothing(v, 0, gCnt, lo, hi);
    ScanStep(v, 0, gCnt, lo, hi, NONE);
    ScanStep(v, 1, gCnt, lo, hi, f1);
    ScanStep(v, 2, gCnt, lo, hi, f2);
    ScanStep(v, 3, gCnt, lo, hi, f3);
    assert v[..4] == v;
  }

  lemma DemoSorted()
    ensures Sorted([FIRST, SECOND, FIRST, SECOND]) == [FIRST, FIRST, SECOND, SECOND]
  {
    var v := [FIRST, SECOND, FIRST, SECOND];
    assert v[..3] == [FIRST, SECOND, FIRST] && v[..3][..2] == [FIRST, SECOND] && v[..3][..2][..1] == [FIRST];
    OneSorted([FIRST]);
    InsertIs([FIRST], SECOND, 1);
    InsertIs([FIRST, SECOND], FIRST, 1);
    InsertIs([FIRST, FIRST, SECOND], SECOND, 3);
    hide Insert;
    assert Sorted([FIRST, SECOND]) == [FIRST, SECOND];
    assert Sorted([FIRST, SECOND, FIRST]) == [FIRST, FIRST, SECOND];
  }

  /** The split itself does not survive: the sort mixes the owner's entries with those of the
      address space, and the probe still takes the first gCnt for the owner's. With two areas, each
      in both lists, the owner's second area is found before the sort and not after it. */
  lemma SortMovesOwners()
    ensures var v := [FIRST, SECOND, FIRST, SECOND];
            Nested(v) && Scanned(v, 2, 0x80_0000, 0x80_1000, Flags(true, false, false, false, true)) &&
            Scanned(Sorted(v), 2, 0x80_0000, 0x80_1000, Flags(false, false, false, false, true))
  {
    hide Scanned, Sorted;
    var v, w := [FIRST, SECOND, FIRST, SECOND], [FIRST, FIRST, SECOND, SECOND];
    var yes, guard := Flags(true, false, false, false, false), Flags(false, false, false, false, true);
    DemoSorted();
    ScanFour(v, 2, 0x80_0000, 0x80_1000, NONE, yes, yes, Flags(true, false, false, false, true));
    ScanFour(w, 2, 0x80_0000, 0x80_1000, NONE, NONE, guard, guard);
    assert forall x :: x in v ==> x == FIRST || x == SECOND;
  }

  lemma {:induction false} InsertRight(s: seq<Vma>, t: seq<Vma>, y: Vma)
    requires forall x :: x in s ==> !After(x, y)
    ensures Insert(s + t, y) == s + Insert(t, y)
  {
    if t == [] {
      assert s + t == s;
    } else {
      var u := t[..|t| - 1];
      assert (s + t)[..|s + t| - 1] == s + u && (s + t)[|s + t| - 1] == t[|t| - 1];
      InsertRight(s, u, y);
      assert s + t + [y] == s + (t + [y]);
      assert s + Insert(u, y) + [t[|t| - 1]] == s + (Insert(u, y) + [t[|t| - 1]]);
    }
  }

  /** No area of the owner's comes after one of the address space's. */
  ghost predicate OwnerBelow(own: seq<Vma>, oth: seq<Vma>) {
    forall x, y :: x in own && y in oth ==> !After(x, y)
  }

  lemma {:induction false} SortedApart(own: seq<Vma>, oth: seq<Vma>)
    requires OwnerBelow(own, oth)
    ensures Sorted(own + oth) == Sorted(own) + Sorted(oth)
  {
    hide After, Insert;
    if oth == [] {
      assert own + oth == own;
    } else {
      var t := oth[..|oth| - 1];
      assert (own + oth)[..|own + oth| - 1] == own + t && (own + oth)[|own + oth| - 1] == oth[|oth| - 1];
      SortedApart(own, t);
      SortedOrdered(own);
      SameMembers(own, Sorted(own));
      InsertRight(Sorted(own), Sorted(t), oth[|oth| - 1]);
    }
  }

  lemma PrefixOthers(w: seq<Vma>, own: seq<Vma>, oth: seq<Vma>)
    requires multiset(w) == multiset(own + oth) && |own| <= |w| && multiset(w[..|own|]) == multiset(own)
    ensures multiset(w[|own|..]) == multiset(oth)
  {
    assert w == w[..|own|] + w[|own|..];
    assert multiset(own) + multiset(w[|own|..]) == multiset(own) + multiset(oth);
    forall x
      ensures multiset(w[|own|..])[x] == multiset(oth)[x]
    {
      assert (multiset(own) + multiset(w[|own|..]))[x] == (multiset(own) + multiset(oth))[x];
    }
  }

  /** The first entries after the sort are the owner's if and only if every area of the owner's
      comes before every one found by address space, by base and then by length. */
  lemma OwnersFirst(own: seq<Vma>, oth: seq<Vma>)
    ensures |Sorted(own + oth)| == |own| + |oth|
    ensures multiset(Sorted(own + oth)[..|own|]) == multiset(own) <==> OwnerBelow(own, oth)
  {
    var w := Sorted(own + oth);
    SortedOrdered(own + oth);
    SameMembers(own + oth, w);
    if multiset(w[..|own|]) == multiset(own) {
      PrefixOthers(w, own, oth);
      SameMembers(own, w[..|own|]);
      SameMembers(oth, w[|own|..]);
      forall x, y | x in own && y in oth
        ensures !After(x, y)
      {
        var i :| 0 <= i < |own| && w[..|own|][i] == x;
        var j :| 0 <= j < |oth| && w[|own|..][j] == y;
        assert w[i] == x && w[|own| + j] == y;
      }
    }
    if OwnerBelow(own, oth) {
      SortedApart(own, oth);
      SortedOrdered(own);
      SameMembers(own, Sorted(own));
      assert w[..|own|] == Sorted(own);
    }
  }

  /** The scan by membership in the two lists. */
  ghost predicate Told(own: seq<Vma>, oth: seq<Vma>, lo: nat, hi: nat, f: Flags) {
    (f.vma <==> exists x :: x in own && Hits(x, lo, hi)) &&
    (f.shared <==> exists x :: x in own + oth && Hits(x, lo, hi) && x.kind.Shm?) &&
    (f.lazyFile <==> exists x :: x in own && Hits(x, lo, hi) && LazyFile(x)) &&
    (f.lazyAnon <==> exists x :: x in own && Hits(x, lo, hi) && LazyAnon(x)) &&
    (f.guard <==> exists x :: x in oth && Hits(x, lo, hi))
  }

  lemma ScannedTold(own: seq<Vma>, oth: seq<Vma>, lo: nat, hi: nat, f: Flags)
    ensures Scanned(own + oth, |own|, lo, hi, f) <==> Told(own, oth, lo, hi, f)
  {
    hide Hits, LazyFile, LazyAnon;
    var v := own + oth;
    assert forall i :: 0 <= i < |own| ==> v[i] in own;
    assert forall i :: |own| <= i < |v| ==> v[i] in oth;
    forall x | x in own
      ensures exists i {:trigger v[i]} :: 0 <= i < |own| && v[i] == x
    {
      var i :| 0 <= i < |own| && own[i] == x;
      assert v[i] == x;
    }
    forall x | x in oth
      ensures exists i {:trigger v[i]} :: |own| <= i < |v| && v[i] == x
    {
      var i :| 0 <= i < |oth| && oth[i] == x;
      assert v[|own| + i] == x;
    }
  }

  /** And then, for every range, the probe of the sorted snapshot tells the two apart as the
      lists themselves do. */
  lemma SplitKept(own: seq<Vma>, oth: seq<Vma>, lo: nat, hi: nat, f: Flags)
    requires OwnerBelow(own, oth)
    ensures Scanned(Sorted(own + oth), |own|, lo, hi, f) <==> Scanned(own + oth, |own|, lo, hi, f)
  {
    hide Scanned, Sorted;
    var w, g := Sorted(own + oth), |own|;
    OwnersFirst(own, oth);
    SortedOrdered(own + oth);
    PrefixOthers(w, own, oth);
    SameMembers(own, w[..g]);
    SameMembers(oth, w[g..]);
    ScannedTold(own, oth, lo, hi, f);
    ScannedTold(w[..g], w[g..], lo, hi, f);
    assert w[..g] + w[g..] == w;
    hide Hits, LazyFile, LazyAnon, OwnerBelow;
  }

  // -------------------------------------------------------------- fast paths

  datatype Brk = Brk(base: nat, current: nat)

  const LIMIT: nat := 0x1_0000_0000

  /** mm_brk_fork_hi. */
  function BrkHi(b: Brk): nat {
    if b.base == 0 then 0
    else
      var hi := if b.current < b.base then b.base else b.current;
      var win := b.base + 0x4_0000;
      var top := if win > hi then win else hi;
      if top > LIMIT then LIMIT else top
  }

  /** mm_va_in_brk. */
  predicate InBrk(b: Brk, va: nat) { b.base != 0 && BrkHi(b) > b.base && b.base <= va < BrkHi(b) }

  /** mm_range_in_brk. */
  predicate RangeInBrk(b: Brk, lo: nat, hi: nat) { b.base != 0 && BrkHi(b) > b.base && hi > b.base && lo < BrkHi(b) }

  /** The heap runs from its base to its end, and at least 256 KiB, below 4 GiB; a range is in
      it when one of its bytes is. */
  lemma BrkBytes(b: Brk, lo: nat, hi: nat)
    requires lo < hi
    ensures forall va: nat :: InBrk(b, va) <==>
              0 < b.base <= va < LIMIT && (va < b.current || va < b.base + 0x4_0000)
    ensures RangeInBrk(b, lo, hi) <==> exists va :: Within(va, lo, hi) && InBrk(b, va)
  {
    if RangeInBrk(b, lo, hi) {
      var va := if lo < b.base then b.base else lo;
      assert Within(va, lo, hi) && InBrk(b, va);
    }
  }

  /** What fork knows of the parent's areas. list is the sorted snapshot of the owner's entries
      and those of the address space, or both lists unsorted when there was no memory for the
      snapshot or no room in it (full); gCnt is the length of owner. */
  datatype Areas = Areas(full: bool, list: seq<Vma>, gCnt: nat, owner: seq<Vma>, brk: Brk)

  ghost predicate AreasOk(a: Areas) { a.full || (Ordered(a.list) && Nested(a.list)) }

  /** MV_SNAP_CAP. */
  const SNAP_CAP: nat := 256

  /** user_vma_snapshot and the sort, as the walk begins. */
  method TakeSnapshot(owner: seq<Vma>, others: seq<Vma>, brk: Brk, memory: bool) returns (a: Areas)
    requires Nested(owner + others)
    ensures AreasOk(a) && multiset(a.list) == multiset(owner + others) && a.owner == owner && a.brk == brk
    ensures !a.full ==> a.list == Sorted(owner + others)
    ensures a.gCnt == |owner| && (a.full <==> !memory || |owner| + |others| >= SNAP_CAP)
  {
    var all := owner + others;
    if !memory || |all| >= SNAP_CAP {
      return Areas(true, all, |owner|, owner, brk);
    }
    var v := new Vma[|all|](i requires 0 <= i < |all| => all[i]);
    assert v[..|all|] == all;
    SnapshotSort(v, |all|);
    SameMembers(all, v[..|all|]);
    a := Areas(false, v[..|all|], |owner|, owner, brk);
  }

  ghost function ScanOf(v: seq<Vma>, gCnt: nat, lo: nat, hi: nat): (f: Flags)
    ensures Scanned(v, gCnt, lo, hi, f)
  {
    Flags(exists i {:trigger v[i]} :: 0 <= i < |v| && i < gCnt && Hits(v[i], lo, hi),
          exists i {:trigger v[i]} :: 0 <= i < |v| && Hits(v[i], lo, hi) && v[i].kind.Shm?,
          exists i {:trigger v[i]} :: 0 <= i < |v| && i < gCnt && Hits(v[i], lo, hi) && LazyFile(v[i]),
          exists i {:trigger v[i]} :: 0 <= i < |v| && i < gCnt && Hits(v[i], lo, hi) && LazyAnon(v[i]),
          exists i {:trigger v[i]} :: 0 <= i < |v| && i >= gCnt && Hits(v[i], lo, hi))
  }

  lemma ScanIs(v: seq<Vma>, gCnt: nat, lo: nat, hi: nat, f: Flags)
    requires Scanned(v, gCnt, lo, hi, f)
    ensures f == ScanOf(v, gCnt, lo, hi)
  {
  }

  /** The flags of page v: the probe tests the page, the exact predicates its first byte. */
  ghost function PageScan(a: Areas, v: nat): Flags {
    ScanOf(a.list, a.gCnt, v * 4096, v * 4096 + if a.full then 1 else 4096)
  }

  predicate Lazy(f: Flags) { f.lazyFile || f.lazyAnon }

  /** mm_mv_page_exact: every area is tested. */
  method PageExact(v: seq<Vma>, gCnt: nat, va: nat) returns (f: Flags)
    ensures Scanned(v, gCnt, va, va + 1, f)
  {
    hide Scanned, Hits, Add;
    f := NONE;
    ScanNothing(v, 0, gCnt, va, va + 1);
    for i := 0 to |v|
      invariant Scanned(v[..i], gCnt, va, va + 1, f)
    {
      ScanStep(v, i, gCnt, va, va + 1, f);
      if Hits(v[i], va, va + 1) {
        f := Add(f, v[i], i < gCnt);
      }
    }
    assert v[..|v|] == v;
  }

  method PageFlags(a: Areas, v: nat) returns (f: Flags)
    requires AreasOk(a)
    ensures f == PageScan(a, v)
  {
    hide Scanned, ScanOf;
    if a.full {
      f := PageExact(a.list, a.gCnt, v * 4096);
    } else {
      f := Probe(a.list, a.gCnt, v * 4096, v * 4096 + 4096);
    }
    ScanIs(a.list, a.gCnt, v * 4096, v * 4096 + (if a.full then 1 else 4096), f);
  }

  /** The first page of the 2 MiB span of page v. */
  function SpanBase(v: nat): nat { v / 512 * 512 }

  /** The walk passes over a whole table of 4 KiB leaves: no area and no brk meets its span. */
  ghost predicate SpanFree(a: Areas, v: nat) {
    var lo := SpanBase(v) * 4096;
    !a.full && !RangeInBrk(a.brk, lo, lo + 0x20_0000) &&
    forall i :: 0 <= i < |a.list| ==> !Hits(a.list[i], lo, lo + 0x20_0000)
  }

  lemma NoFlags(v: seq<Vma>, gCnt: nat, lo: nat, hi: nat, f: Flags)
    requires Scanned(v, gCnt, lo, hi, f)
    ensures f == NONE <==> forall i :: 0 <= i < |v| ==> !Hits(v[i], lo, hi)
  {
  }

  /** The probe of a span, and the test of brk. */
  method ProbeSpan(a: Areas, v: nat) returns (free: bool)
    requires AreasOk(a)
    ensures free <==> SpanFree(a, v)
  {
    hide Scanned, Hits, RangeInBrk;
    if a.full {
      return false;
    }
    var lo := SpanBase(v) * 4096;
    var f := Probe(a.list, a.gCnt, lo, lo + 0x20_0000);
    NoFlags(a.list, a.gCnt, lo, lo + 0x20_0000, f);
    free := f == NONE && !RangeInBrk(a.brk, lo, lo + 0x20_0000);
  }

  /** Page v lies in an area or in brk. */
  ghost predicate Covered(a: Areas, v: nat) {
    (exists i {:trigger a.list[i]} :: 0 <= i < |a.list| && Hits(a.list[i], v * 4096, v * 4096 + 4096)) ||
    RangeInBrk(a.brk, v * 4096, v * 4096 + 4096)
  }

  /** A covered page is never in a span that is passed over. */
  lemma CoveredNotFree(a: Areas, v: nat)
    requires Covered(a, v)
    ensures !SpanFree(a, v)
  {
    var lo := SpanBase(v) * 4096;
    assert lo <= v * 4096 && v * 4096 + 4096 <= lo + 0x20_0000;
    assert forall i :: 0 <= i < |a.list| && Hits(a.list[i], v * 4096, v * 4096 + 4096) ==>
          Hits(a.list[i], lo, lo + 0x20_0000);
  }

  /** The per-page loop hands this page to the child. */
  predicate Copied(f: Flags, inBrk: bool, va: nat, pa: nat, owned: bool) {
    !((f.lazyFile || f.lazyAnon) && (!owned || pa == va)) &&
    !(pa == va && !owned && !f.shared && !f.vma && !inBrk)
  }

  /** A page of a chunk that no area meets is met by no area. */
  lemma PageOfChunk(v: seq<Vma>, gCnt: nat, lo: nat, hi: nat, va: nat, f: Flags, g: Flags)
    requires lo <= va && va + 4096 <= hi && Scanned(v, gCnt, lo, hi, f) && Scanned(v, gCnt, va, va + 4096, g)
    requires !f.vma && !f.guard
    ensures g == NONE
  {
    assert forall i :: 0 <= i < |v| && Hits(v[i], va, va + 4096) ==> Hits(v[i], lo, hi);
  }

  /** The 2 MiB fast path: an unowned identity chunk that no area and no brk meets has no
      page that the loop over its pages would have copied. */
  lemma ChunkSkipDropsNothing(v: seq<Vma>, gCnt: nat, brk: Brk, lo: nat, hi: nat, va: nat, f: Flags, g: Flags)
    requires lo <= va && va + 4096 <= hi && Scanned(v, gCnt, lo, hi, f) && Scanned(v, gCnt, va, va + 4096, g)
    requires f == NONE && !RangeInBrk(brk, lo, hi)
    ensures !Copied(g, InBrk(brk, va), va, va, false)
  {
    PageOfChunk(v, gCnt, lo, hi, va, f, g);
  }

  /** The same skip over a table of 4 KiB leaves drops a page exactly when the page is
      owned or not the identity. */
  lemma TableSkipDrops(v: seq<Vma>, gCnt: nat, brk: Brk, lo: nat, hi: nat, va: nat, pa: nat, owned: bool, f: Flags,
                       g: Flags)
    requires lo <= va && va + 4096 <= hi && Scanned(v, gCnt, lo, hi, f) && Scanned(v, gCnt, va, va + 4096, g)
    requires f == NONE && !RangeInBrk(brk, lo, hi)
    ensures Copied(g, InBrk(brk, va), va, pa, owned) <==> owned || pa != va
  {
    PageOfChunk(v, gCnt, lo, hi, va, f, g);
  }
}
