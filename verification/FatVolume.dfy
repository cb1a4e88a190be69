/** A FAT32 volume: the mirrored table, allocation of clusters and freeing of chains. */
module FatVolume {
  import opened Basics
  import opened FatChains

  /** A sector of the table: 128 words of 32 bits. */
  ghost predicate SectorOk(s: seq<nat>)
  {
    |s| == 128 && forall i :: 0 <= i < 128 ==> s[i] < U32
  }

  ghost predicate CopyOk(t: seq<seq<nat>>, sectors: nat)
  {
    |t| == sectors && forall j :: 0 <= j < sectors ==> SectorOk(t[j])
  }

  /** The first n entries of a copy of the table, without their four reserved bits. */
  ghost function Entries(t: seq<seq<nat>>, n: nat): (nx: seq<nat>)
    requires CopyOk(t, |t|) && n <= 128 * |t|
    ensures |nx| == n
    ensures forall c :: 0 <= c < n ==> nx[c] == t[c / 128][c % 128] % LOW28
  {
    seq(n, c requires 0 <= c < n => t[c / 128][c % 128] % LOW28)
  }

  /** A word with a new entry and its reserved bits as before. */
  function NewWord(w: nat, value: nat): (r: nat)
    ensures w < U32 ==> r < U32
    ensures r % LOW28 == value % LOW28 && r / LOW28 == w / LOW28
  {
    w / LOW28 * LOW28 + value % LOW28
  }

  function Put(s: seq<nat>, i: nat, value: nat): seq<nat>
    requires i < |s|
  {
    s[i := NewWord(s[i], value)]
  }

  lemma EntriesPut(t: seq<seq<nat>>, n: nat, c: nat, value: nat)
    requires CopyOk(t, |t|) && c < n <= 128 * |t|
    ensures c / 128 < |t| && c % 128 < |t[c / 128]|
    ensures CopyOk(t[c / 128 := Put(t[c / 128], c % 128, value)], |t|)
    ensures Entries(t[c / 128 := Put(t[c / 128], c % 128, value)], n) == Entries(t, n)[c := value % LOW28]
  {
    var j, i := c / 128, c % 128;
    assert SectorOk(t[j]);
    var t' := t[j := Put(t[j], i, value)];
    hide NewWord;
    assert SectorOk(t'[j]);
    forall d | 0 <= d < n ensures Entries(t', n)[d] == Entries(t, n)[c := value % LOW28][d] {
      if d / 128 == j && d % 128 == i { assert d == c; }
    }
  }

  /** Going round from the cluster after last, d comes before c. */
  predicate Passed(last: nat, d: nat, c: nat)
  {
    if last < c then last < d < c else d > last || d < c
  }

  class Volume {
    const sectors: nat
    const clusters: nat
    var fats: seq<seq<seq<nat>>>
    var lastAlloc: nat

    /** Copies are all alike, and the table covers the volume. */
    ghost predicate Valid()
      reads `fats
    {
      && fats != [] && (forall k :: 0 <= k < |fats| ==> fats[k] == fats[0])
      && CopyOk(fats[0], sectors) && clusters + 2 <= 128 * sectors && Closed(Nx())
    }

    ghost function Nx(): (nx: seq<nat>)
      requires fats != [] && CopyOk(fats[0], sectors) && clusters + 2 <= 128 * sectors
      reads `fats
    {
      Entries(fats[0], clusters + 2)
    }

    /** No cluster is free. */
    ghost predicate Full()
      requires Valid()
      reads `fats
    {
      clusters < 2 || forall d :: 2 <= d < clusters + 2 ==> Nx()[d] != 0
    }

    /** A mounted volume: its table, kept in one or more copies. */
    constructor (table: seq<seq<nat>>, copies: nat, count: nat)
      requires copies > 0 && CopyOk(table, |table|) && count + 2 <= 128 * |table| && Closed(Entries(table, count + 2))
      ensures Valid() && sectors == |table| && clusters == count && Nx() == Entries(table, count + 2)
      ensures |fats| == copies
    {
      sectors, clusters, fats, lastAlloc := |table|, count, seq(copies, _ => table), 0;
    }

    method ReadEntry(c: nat) returns (v: nat)
      requires Valid() && c < clusters + 2
      ensures v == Nx()[c]
    {
      var sector := fats[0][c / 128];
      v := sector[c % 128] % LOW28;
    }

    /** Read a sector of the first copy, change one entry and write it to every copy. */
    method WriteEntry(c: nat, value: nat)
      requires Valid() && c < clusters + 2
      requires value % LOW28 < clusters + 2 || value % LOW28 >= EOC
      modifies `fats
      ensures Valid() && |fats| == old(|fats|) && Nx() == old(Nx())[c := value % LOW28]
    {
      var j := c / 128;
      EntriesPut(fats[0], clusters + 2, c, value);
      var buf := Put(fats[0][j], c % 128, value);
      ghost var was, now := fats[0], fats[0][j := buf];
      fats := fats[0 := fats[0][j := buf]];
      for fi := 1 to |fats|
        invariant |fats| == old(|fats|)
        invariant forall k :: 0 <= k < fi ==> fats[k] == now
        invariant forall k :: fi <= k < |fats| ==> fats[k] == was
      {
        fats := fats[fi := fats[fi][j := buf]];
      }
    }

    /** The first free cluster after the last one given out, going round once. */
    method FindFree() returns (c: nat)
      requires Valid()
      modifies `lastAlloc
      ensures c == 0 <==> Full()
      ensures c != 0 ==> 2 <= c < clusters + 2 && Nx()[c] == 0 && lastAlloc == c
      ensures c == 0 ==> lastAlloc == old(lastAlloc)
      ensures c != 0 ==> forall d :: 2 <= d < clusters + 2 && Passed(old(lastAlloc), d, c) ==> Nx()[d] != 0
    {
      if clusters < 2 { return 0; }
      var start := if lastAlloc >= 2 then lastAlloc + 1 else 2;
      if start < 2 || start >= clusters + 2 { start := 2; }
      c := start;
      var loaded, sec := -1, [];
      for k := 0 to clusters
        invariant 2 <= c < clusters + 2 && lastAlloc == old(lastAlloc)
        invariant loaded == -1 || (0 <= loaded < sectors && sec == fats[0][loaded])
        invariant c == if start + k < clusters + 2 then start + k else start + k - clusters
        invariant forall d :: start <= d < start + k && d < clusters + 2 ==> Nx()[d] != 0
        invariant forall d :: 2 <= d < start + k - clusters ==> Nx()[d] != 0
      {
        var sector := c / 128;
        if sector != loaded {
          sec := fats[0][sector];
          loaded := sector;
        }
        var val := sec[c % 128] % LOW28;
        assert val == Nx()[c];
        if val == 0 {
          lastAlloc := c;
          assert Nx()[c] == 0;
          return c;
        }
        c := c + 1;
        if c >= clusters + 2 { c := 2; }
      }
      c := 0;
    }

    /** Allocate a chain of n clusters. A failure part-way leaves those found so far marked, on no file's chain. */
    method AllocChain(n: nat) returns (first: nat, ghost cs: seq<nat>)
      requires Valid()
      modifies `fats, `lastAlloc
      ensures Valid() && |fats| == old(|fats|) && Grown(old(Nx()), Nx(), cs)
      ensures first != 0 ==> |cs| == n && n > 0 && first == cs[0]
      ensures first == 0 ==> n == 0 || Full()
    {
      hide Grown, Entries, Closed, CopyOk;
      first, cs := 0, [];
      GrownNone(Nx());
      if n == 0 { return; }
      var prev := 0;
      for i := 0 to n
        invariant Valid() && |fats| == old(|fats|) && |cs| == i && Grown(old(Nx()), Nx(), cs)
        invariant i == 0 ==> first == 0 && prev == 0
        invariant i > 0 ==> first == cs[0] != 0 && prev == cs[i - 1] != 0
      {
        var c := FindFree();
        if c == 0 { return 0, cs; }
        if first == 0 { first := c; }
        GrownStep(old(Nx()), Nx(), cs, c);
        IndexFits(Nx(), c);
        if prev != 0 { WriteEntry(prev, c); }
        prev := c;
        WriteEntry(c, LAST);
        cs := cs + [c];
      }
    }

    /** Clear a chain from its first cluster on; a link back into the cleared part stops it. */
    method FreeChain(start: nat)
      requires Valid() && (start < clusters + 2 || start >= EOC)
      modifies `fats
      ensures Valid() && |fats| == old(|fats|) && Nx() == ClearedFrom(old(Nx()), start)
      ensures 2 <= start < EOC ==> start < |Nx()| && Nx()[start] == 0
      ensures |Nx()| == |old(Nx())| && forall d :: 0 <= d < |Nx()| ==> Nx()[d] == 0 || Nx()[d] == old(Nx())[d]
    {
      hide ClearedFrom, Entries, Used, Closed;
      ghost var goal := ClearedFrom(Nx(), start);
      FromOnly(Nx(), start);
      ClearedOutside(Nx(), start);
      if start < 2 { return; }
      var c: nat := start;
      while 2 <= c < EOC
        invariant Valid() && |fats| == old(|fats|) && (c < clusters + 2 || c >= EOC)
        invariant ClearedFrom(Nx(), c) == goal
        decreases Used(Nx())
      {
        ClearedStep(Nx(), c);
        var next := ReadEntry(c);
        WriteEntry(c, 0);
        if next >= EOC || next < 2 {
          ClearedOutside(Nx(), next);
          return;
        }
        c := next;
      }
      ClearedOutside(Nx(), c);
    }
  }

  lemma IndexFits(nx: seq<nat>, c: nat)
    requires Closed(nx) && c < |nx|
    ensures c % LOW28 == c
  {
  }

  lemma GrownNone(nx: seq<nat>)
    ensures Grown(nx, nx, [])
  {
  }

  lemma ClearedOutside(nx: seq<nat>, c: nat)
    requires Closed(nx)
    ensures c < 2 || c >= EOC ==> ClearedFrom(nx, c) == nx
  {
  }
}
