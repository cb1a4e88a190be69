/** Cluster chains in a file allocation table, and the bytes they hold. */
module FatChains {

  const LOW28: nat := 0x1000_0000
  const EOC: nat := 0x0FFF_FFF8
  const LAST: nat := 0x0FFF_FFFF

  /** A non-empty run of distinct data clusters, each naming the next and the last an end-of-chain mark. */
  ghost predicate Chain(nx: seq<nat>, cs: seq<nat>)
  {
    && cs != [] && 2 <= cs[0] < |nx| && cs[0] !in cs[1..]
    && (if |cs| == 1 then nx[cs[0]] >= EOC else nx[cs[0]] == cs[1] && Chain(nx, cs[1..]))
  }

  /** Entries of chained clusters are never zero, so a free cluster is on no chain. */
  lemma {:induction false} ChainUsed(nx: seq<nat>, cs: seq<nat>, c: nat)
    requires Chain(nx, cs) && c in cs
    ensures 2 <= c < |nx| && nx[c] != 0
  {
    if c != cs[0] {
      ChainUsed(nx, cs[1..], c);
    } else if |cs| > 1 {
      assert Chain(nx, cs[1..]);
    }
  }

  lemma {:induction false} ChainFrame(nx: seq<nat>, nx': seq<nat>, cs: seq<nat>)
    requires Chain(nx, cs) && |nx'| == |nx|
    requires forall c :: c in cs && c < |nx| ==> nx'[c] == nx[c]
    ensures Chain(nx', cs)
  {
    if |cs| > 1 { ChainFrame(nx, nx', cs[1..]); }
  }

  lemma {:induction false} ChainAt(nx: seq<nat>, cs: seq<nat>, i: nat)
    requires Chain(nx, cs) && i < |cs|
    ensures 2 <= cs[i] < |nx| && cs[i] !in cs[..i]
    ensures if i + 1 < |cs| then nx[cs[i]] == cs[i + 1] else nx[cs[i]] >= EOC
  {
    if i > 0 {
      ChainAt(nx, cs[1..], i - 1);
      assert cs[..i] == [cs[0]] + cs[1..][..i - 1];
      assert cs[1..][i - 1] == cs[i];
    }
  }

  /** Hang one more cluster behind the last. */
  lemma {:induction false} ChainExtend(nx: seq<nat>, cs: seq<nat>, c: nat)
    requires Chain(nx, cs) && 2 <= c < |nx| && c !in cs
    ensures cs[|cs| - 1] < |nx| && Chain(nx[cs[|cs| - 1] := c][c := LAST], cs + [c])
  {
    var last := cs[|cs| - 1];
    ChainAt(nx, cs, |cs| - 1);
    var nx' := nx[last := c][c := LAST];
    if |cs| == 1 {
      assert (cs + [c])[1..] == [c];
    } else {
      ChainExtend(nx, cs[1..], c);
      assert (cs + [c])[1..] == cs[1..] + [c];
      assert cs[1..][|cs| - 2] == last;
      assert cs[0] != last by { assert last in cs[1..]; }
    }
  }

  type Chains = map<nat, seq<nat>>

  /** Every file's chain is one, and no cluster is on two. A file without clusters has the empty chain. */
  ghost predicate Live(nx: seq<nat>, chains: Chains)
  {
    && (forall f :: f in chains && chains[f] != [] ==> Chain(nx, chains[f]))
    && (forall f, g, c :: f in chains && g in chains && f != g && c in chains[f] ==> c !in chains[g])
  }

  lemma FreeIsLoose(nx: seq<nat>, chains: Chains, c: nat)
    requires Live(nx, chains) && c < |nx| && nx[c] == 0
    ensures forall f :: f in chains ==> c !in chains[f]
  {
    forall f | f in chains ensures c !in chains[f] {
      if c in chains[f] { ChainUsed(nx, chains[f], c); }
    }
  }

  /** A chain of clusters that were on none becomes a file's. */
  lemma LiveAdd(nx: seq<nat>, chains: Chains, f: nat, cs: seq<nat>)
    requires Live(nx, chains) && Chain(nx, cs)
    requires forall g, c :: g in chains && g != f && c in cs ==> c !in chains[g]
    ensures Live(nx, chains[f := cs])
  {
  }

  lemma LiveExtend(nx: seq<nat>, chains: Chains, f: nat, c: nat)
    requires Live(nx, chains) && f in chains && chains[f] != [] && 2 <= c < |nx| && nx[c] == 0
    ensures var cs := chains[f];
      && cs[|cs| - 1] < |nx|
      && Live(nx[cs[|cs| - 1] := c][c := LAST], chains[f := cs + [c]])
  {
    var cs := chains[f];
    FreeIsLoose(nx, chains, c);
    ChainExtend(nx, cs, c);
    var nx' := nx[cs[|cs| - 1] := c][c := LAST];
    forall g | g in chains && g != f && chains[g] != [] ensures Chain(nx', chains[g]) {
      assert cs[|cs| - 1] in chains[f];
      ChainFrame(nx, nx', chains[g]);
    }
  }

  /** Closed: links stay inside the table. */
  ghost predicate Closed(nx: seq<nat>)
  {
    |nx| <= EOC && forall c :: 0 <= c < |nx| ==> nx[c] < |nx| || nx[c] >= EOC
  }

  // --- Freeing ---

  function Used(nx: seq<nat>): nat
  {
    if nx == [] then 0 else Used(nx[..|nx| - 1]) + if nx[|nx| - 1] == 0 then 0 else 1
  }

  lemma {:induction false} UsedDrops(nx: seq<nat>, c: nat)
    requires c < |nx| && nx[c] != 0
    ensures Used(nx[c := 0]) < Used(nx)
  {
    var k := |nx| - 1;
    if c < k {
      UsedDrops(nx[..k], c);
      assert nx[c := 0][..k] == nx[..k][c := 0];
    } else {
      assert nx[c := 0][..k] == nx[..k];
    }
  }

  /** The table after following links from c and clearing what is passed; a cleared entry ends the walk. */
  ghost function Cleared(nx: seq<nat>, c: nat): (r: seq<nat>)
    requires 2 <= c < |nx| && Closed(nx)
    ensures |r| == |nx|
    decreases Used(nx)
  {
    if nx[c] < 2 || nx[c] >= EOC then nx[c := 0]
    else
      UsedDrops(nx, c);
      Cleared(nx[c := 0], nx[c])
  }

  function Zeroed(nx: seq<nat>, cs: seq<nat>): (r: seq<nat>)
    ensures |r| == |nx|
  {
    seq(|nx|, i requires 0 <= i < |nx| => if i in cs then 0 else nx[i])
  }

  lemma {:induction false} ClearedChain(nx: seq<nat>, cs: seq<nat>)
    requires Chain(nx, cs) && Closed(nx)
    ensures Cleared(nx, cs[0]) == Zeroed(nx, cs)
    decreases |cs|
  {
    var nx' := nx[cs[0] := 0];
    if |cs| > 1 {
      assert Chain(nx, cs[1..]);
      ChainFrame(nx, nx', cs[1..]);
      ClearedChain(nx', cs[1..]);
    }
    assert forall c :: c in cs <==> c == cs[0] || c in cs[1..];
  }

  /** Whatever the links are, only entries are cleared and nothing else changes. */
  lemma {:induction false} ClearedOnly(nx: seq<nat>, c: nat)
    requires 2 <= c < |nx| && Closed(nx)
    ensures Cleared(nx, c)[c] == 0
    ensures forall d :: 0 <= d < |nx| ==> Cleared(nx, c)[d] == 0 || Cleared(nx, c)[d] == nx[d]
    decreases Used(nx)
  {
    if !(nx[c] < 2 || nx[c] >= EOC) {
      UsedDrops(nx, c);
      ClearedOnly(nx[c := 0], nx[c]);
    }
  }

  lemma LiveFree(nx: seq<nat>, chains: Chains, f: nat)
    requires Live(nx, chains) && f in chains
    ensures Live(Zeroed(nx, chains[f]), chains[f := []])
  {
    var nx' := Zeroed(nx, chains[f]);
    forall g | g in chains && g != f && chains[g] != [] ensures Chain(nx', chains[g]) {
      ChainFrame(nx, nx', chains[g]);
    }
  }

  ghost function ClearedFrom(nx: seq<nat>, c: nat): (r: seq<nat>)
    requires Closed(nx)
    ensures |r| == |nx|
  {
    if 2 <= c < |nx| then Cleared(nx, c) else nx
  }

  lemma FromOnly(nx: seq<nat>, c: nat)
    requires Closed(nx)
    ensures 2 <= c < |nx| ==> ClearedFrom(nx, c)[c] == 0
    ensures forall d :: 0 <= d < |nx| ==> ClearedFrom(nx, c)[d] == 0 || ClearedFrom(nx, c)[d] == nx[d]
  {
    if 2 <= c < |nx| { ClearedOnly(nx, c); }
  }

  lemma ClearedStep(nx: seq<nat>, c: nat)
    requires Closed(nx) && 2 <= c < |nx|
    ensures Closed(nx[c := 0]) && ClearedFrom(nx, c) == ClearedFrom(nx[c := 0], nx[c])
    ensures 2 <= nx[c] < EOC ==> Used(nx[c := 0]) < Used(nx)
    ensures nx[c] < |nx| <= EOC || nx[c] >= EOC
  {
    if nx[c] != 0 { UsedDrops(nx, c); }
  }

  // --- Allocating ---

  /** nx is nx0 with the chain cs made of free clusters. */
  ghost predicate Grown(nx0: seq<nat>, nx: seq<nat>, cs: seq<nat>)
  {
    && |nx| == |nx0| && (cs != [] ==> Chain(nx, cs) && cs[|cs| - 1] < |nx| && nx[cs[|cs| - 1]] == LAST)
    && (forall d :: d in cs ==> d < |nx| && nx0[d] == 0)
    && (forall d :: 0 <= d < |nx| && d !in cs ==> nx[d] == nx0[d])
  }

  ghost function GrowOne(nx: seq<nat>, cs: seq<nat>, c: nat): seq<nat>
    requires c < |nx| && (cs != [] ==> cs[|cs| - 1] < |nx|)
  {
    if cs == [] then nx[c := LAST] else nx[cs[|cs| - 1] := c][c := LAST]
  }

  lemma GrownStep(nx0: seq<nat>, nx: seq<nat>, cs: seq<nat>, c: nat)
    requires Grown(nx0, nx, cs) && 2 <= c < |nx| && nx[c] == 0
    ensures cs != [] ==> 2 <= cs[|cs| - 1] < |nx|
    ensures Grown(nx0, GrowOne(nx, cs, c), cs + [c])
  {
    if c in cs { ChainUsed(nx, cs, c); }
    if cs != [] {
      ChainExtend(nx, cs, c);
      ChainAt(nx, cs, |cs| - 1);
      assert cs[|cs| - 1] in cs;
    } else {
      assert (cs + [c])[1..] == [];
    }
  }

  /** Growing a chain touches no used cluster, so it leaves all live chains alone. */
  lemma GrownLive(nx0: seq<nat>, nx: seq<nat>, cs: seq<nat>, chains: Chains)
    requires Grown(nx0, nx, cs) && Live(nx0, chains)
    ensures Live(nx, chains)
    ensures forall f, c :: f in chains && c in cs ==> c !in chains[f]
  {
    forall f, c | f in chains && c in cs ensures c !in chains[f] {
      FreeIsLoose(nx0, chains, c);
    }
    forall f | f in chains && chains[f] != [] ensures Chain(nx, chains[f]) {
      ChainFrame(nx0, nx, chains[f]);
    }
  }
}
