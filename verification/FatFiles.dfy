/** Regular files of a FAT32 volume: reading, writing with extension, and truncation. */
module FatFiles {
  import opened Basics
  import opened FatChains
  import opened FatVolume

  // --- The bytes of a chain ---

  ghost predicate Clusters(data: seq<seq<Byte>>, size: nat)
  {
    size > 0 && forall c :: 0 <= c < |data| ==> |data[c]| == size
  }

  ghost predicate InRange(data: seq<seq<Byte>>, cs: seq<nat>)
  {
    forall i :: 0 <= i < |cs| ==> cs[i] < |data|
  }

  ghost function Bytes(data: seq<seq<Byte>>, cs: seq<nat>): (s: seq<Byte>)
    requires InRange(data, cs)
  {
    if cs == [] then [] else Bytes(data, cs[..|cs| - 1]) + data[cs[|cs| - 1]]
  }

  lemma {:induction false} BytesLength(data: seq<seq<Byte>>, size: nat, cs: seq<nat>)
    requires Clusters(data, size) && InRange(data, cs)
    ensures |Bytes(data, cs)| == |cs| * size
  {
    if cs != [] {
      BytesLength(data, size, cs[..|cs| - 1]);
      assert |cs| * size == (|cs| - 1) * size + size;
    }
  }

  lemma {:induction false} BytesSplit(data: seq<seq<Byte>>, cs: seq<nat>, k: nat)
    requires InRange(data, cs) && k < |cs|
    ensures Bytes(data, cs) == Bytes(data, cs[..k]) + data[cs[k]] + Bytes(data, cs[k + 1..])
  {
    var m := |cs| - 1;
    if k < m {
      BytesSplit(data, cs[..m], k);
      assert cs[..m][..k] == cs[..k] && cs[..m][k + 1..] == cs[k + 1..m];
      assert cs[k + 1..][..m - k - 1] == cs[k + 1..m] && cs[k + 1..][m - k - 1] == cs[m];
    } else {
      assert cs[k + 1..] == [];
    }
  }

  lemma {:induction false} BytesFrame(data: seq<seq<Byte>>, data': seq<seq<Byte>>, cs: seq<nat>)
    requires InRange(data, cs) && |data'| == |data|
    requires forall i :: 0 <= i < |cs| && cs[i] < |data| ==> data'[cs[i]] == data[cs[i]]
    ensures Bytes(data', cs) == Bytes(data, cs)
  {
    if cs != [] { BytesFrame(data, data', cs[..|cs| - 1]); }
  }

  lemma SpliceSplice(s: seq<Byte>, at: nat, b: seq<Byte>, c: seq<Byte>)
    requires at + |b| + |c| <= |s|
    ensures Splice(Splice(s, at, b), at + |b|, c) == Splice(s, at, b + c)
  {
  }

  lemma SpliceAppend(s: seq<Byte>, at: nat, b: seq<Byte>, tail: seq<Byte>)
    requires at + |b| <= |s|
    ensures Splice(s + tail, at, b) == Splice(s, at, b) + tail
  {
  }

  lemma SpliceNone(s: seq<Byte>, at: nat)
    requires at <= |s|
    ensures Splice(s, at, []) == s
  {
  }

  /** Writing inside the cluster at index k of a chain is writing at that place of its bytes. */
  lemma ClusterWrite(data: seq<seq<Byte>>, cs: seq<nat>, k: nat, off: nat, b: seq<Byte>)
    requires InRange(data, cs) && k < |cs| && off + |b| <= |data[cs[k]]|
    requires cs[k] !in cs[..k] && cs[k] !in cs[k + 1..]
    ensures |Bytes(data, cs[..k])| + off + |b| <= |Bytes(data, cs)|
    ensures Bytes(data[cs[k] := Splice(data[cs[k]], off, b)], cs)
         == Splice(Bytes(data, cs), |Bytes(data, cs[..k])| + off, b)
  {
    var c := cs[k];
    var data' := data[c := Splice(data[c], off, b)];
    BytesSplit(data, cs, k);
    BytesSplit(data', cs, k);
    BytesFrame(data, data', cs[..k]);
    BytesFrame(data, data', cs[k + 1..]);
    SpliceMiddle(Bytes(data, cs[..k]), data[c], Bytes(data, cs[k + 1..]), off, b);
  }

  lemma SpliceMiddle(p: seq<Byte>, m: seq<Byte>, t: seq<Byte>, off: nat, b: seq<Byte>)
    requires off + |b| <= |m|
    ensures p + Splice(m, off, b) + t == Splice(p + m + t, |p| + off, b)
  {
  }

  lemma ClusterRead(data: seq<seq<Byte>>, cs: seq<nat>, k: nat, off: nat, n: nat)
    requires InRange(data, cs) && k < |cs| && off + n <= |data[cs[k]]|
    ensures |Bytes(data, cs[..k])| + off + n <= |Bytes(data, cs)|
    ensures Bytes(data, cs)[|Bytes(data, cs[..k])| + off..|Bytes(data, cs[..k])| + off + n] == data[cs[k]][off..off + n]
  {
    BytesSplit(data, cs, k);
  }

  lemma PositionOf(x: nat, size: nat)
    requires size > 0
    ensures x == x / size * size + x % size && x % size < size
  {
  }

  lemma MulOrder(a: nat, b: nat, s: nat)
    requires a <= b
    ensures a * s <= b * s
  {
  }

  // --- Open files ---

  datatype File = File(start: nat, size: nat)

  ghost predicate FileOk(file: File, cs: seq<nat>, room: nat)
  {
    (if cs == [] then file.start == 0 else file.start == cs[0]) && file.size <= |cs| * room && file.size < U32
  }

  ghost predicate FilesOk(nx: seq<nat>, data: seq<seq<Byte>>, room: nat, files: map<nat, File>, chains: Chains)
  {
    && Live(nx, chains) && |data| == |nx| && Clusters(data, room)
    && files.Keys == chains.Keys && forall f :: f in files ==> FileOk(files[f], chains[f], room)
  }

  lemma ChainRange(nx: seq<nat>, cs: seq<nat>)
    requires cs != [] ==> Chain(nx, cs)
    ensures forall i :: 0 <= i < |cs| ==> 2 <= cs[i] < |nx|
  {
    forall i | 0 <= i < |cs| ensures 2 <= cs[i] < |nx| { ChainAt(nx, cs, i); }
  }

  lemma FileRange(nx: seq<nat>, data: seq<seq<Byte>>, room: nat, files: map<nat, File>, chains: Chains, f: nat)
    requires FilesOk(nx, data, room, files, chains) && f in files
    ensures f in chains && InRange(data, chains[f]) && FileOk(files[f], chains[f], room)
    ensures chains[f] != [] ==> Chain(nx, chains[f])
    ensures |Bytes(data, chains[f])| == |chains[f]| * room && room > 0 && Clusters(data, room)
  {
    ChainRange(nx, chains[f]);
    BytesLength(data, room, chains[f]);
  }

  /** One more cluster at the end of a file's chain. */
  lemma ExtendOk(nx: seq<nat>, data: seq<seq<Byte>>, room: nat, files: map<nat, File>, chains: Chains, f: nat, c: nat)
    requires FilesOk(nx, data, room, files, chains) && f in chains && chains[f] != [] && 2 <= c < |nx| && nx[c] == 0
    ensures var cs := chains[f];
      && cs[|cs| - 1] < |nx| && cs[|cs| - 1] != c
      && FilesOk(nx[cs[|cs| - 1] := c][c := LAST], data, room, files, chains[f := cs + [c]])
  {
    FreeIsLoose(nx, chains, c);
    assert chains[f][|chains[f]| - 1] in chains[f];
    hide Chain, Clusters, Live;
    LiveExtend(nx, chains, f, c);
    MulOrder(|chains[f]|, |chains[f]| + 1, room);
  }

  /** A first chain for a file that had none. */
  lemma FirstOk(nx0: seq<nat>, nx: seq<nat>, data: seq<seq<Byte>>, room: nat, files: map<nat, File>, chains: Chains,
                f: nat, cs: seq<nat>)
    requires FilesOk(nx0, data, room, files, chains) && f in chains && chains[f] == [] && cs != [] && Grown(nx0, nx, cs)
    ensures FilesOk(nx, data, room, files[f := File(cs[0], files[f].size)], chains[f := cs])
  {
    hide Chain, Clusters;
    GrownLive(nx0, nx, cs, chains);
    assert FileOk(files[f], chains[f], room);
    assert Chain(nx, cs);
    LiveAdd(nx, chains, f, cs);
    hide Live, Grown;
    MulOrder(0, |cs|, room);
  }

  lemma GrownOk(nx0: seq<nat>, nx: seq<nat>, data: seq<seq<Byte>>, room: nat, files: map<nat, File>, chains: Chains,
                cs: seq<nat>)
    requires FilesOk(nx0, data, room, files, chains) && Grown(nx0, nx, cs)
    ensures FilesOk(nx, data, room, files, chains)
  {
    hide Chain, Clusters;
    GrownLive(nx0, nx, cs, chains);
  }

  lemma ClearedFile(nx: seq<nat>, file: File, cs: seq<nat>, room: nat)
    requires FileOk(file, cs, room) && Closed(nx) && |nx| >= 2 && (cs != [] ==> Chain(nx, cs))
    ensures file.start < |nx| && ClearedFrom(nx, file.start) == Zeroed(nx, cs)
  {
    if cs != [] {
      ClearedChain(nx, cs);
      ChainAt(nx, cs, 0);
    } else {
      assert Zeroed(nx, cs) == nx;
    }
  }

  /** A file without clusters after its chain has been cleared. */
  lemma TruncatedOk(nx: seq<nat>, data: seq<seq<Byte>>, room: nat, files: map<nat, File>, chains: Chains, f: nat)
    requires FilesOk(nx, data, room, files, chains) && f in chains && Closed(nx) && |nx| >= 2
    ensures f in files && files[f].start < |nx| && ClearedFrom(nx, files[f].start) == Zeroed(nx, chains[f])
    ensures FilesOk(ClearedFrom(nx, files[f].start), data, room, files[f := File(0, 0)], chains[f := []])
  {
    assert FileOk(files[f], chains[f], room);
    ClearedFile(nx, files[f], chains[f], room);
    hide ClearedFrom, Chain, Clusters;
    LiveFree(nx, chains, f);
    hide Live, Zeroed;
  }

  /** data is data0 with done written at offset of the chain cs, and nothing off the chain touched. */
  ghost predicate Writing(data0: seq<seq<Byte>>, data: seq<seq<Byte>>, room: nat, cs: seq<nat>, offset: nat,
                          done: seq<Byte>)
  {
    && |data| == |data0| && Clusters(data, room) && InRange(data0, cs)
    && (forall c :: 0 <= c < |data| && c !in cs ==> data[c] == data0[c])
    && offset + |done| <= |Bytes(data0, cs)| && Bytes(data, cs) == Splice(Bytes(data0, cs), offset, done)
  }

  lemma WritingStart(data: seq<seq<Byte>>, room: nat, cs: seq<nat>, offset: nat)
    requires Clusters(data, room) && InRange(data, cs) && offset <= |Bytes(data, cs)|
    ensures Writing(data, data, room, cs, offset, [])
  {
    SpliceNone(Bytes(data, cs), offset);
  }

  lemma WritingStep(data0: seq<seq<Byte>>, data: seq<seq<Byte>>, room: nat, nx: seq<nat>, cs: seq<nat>, offset: nat,
                    done: seq<Byte>, k: nat, off: nat, chunk: seq<Byte>)
    requires Writing(data0, data, room, cs, offset, done) && Chain(nx, cs) && k < |cs|
    requires off + |chunk| <= room && k * room + off == offset + |done|
    ensures cs[k] < |data| && |data[cs[k]]| == room
    ensures Writing(data0, data[cs[k] := Splice(data[cs[k]], off, chunk)], room, cs, offset, done + chunk)
  {
    hide Bytes, Chain, Splice;
    ChainAt(nx, cs, k);
    ChainDistinct(nx, cs, k);
    PrefixLength(data, room, cs, k);
    ClusterWrite(data, cs, k, off, chunk);
    assert |Bytes(data, cs)| == |Bytes(data0, cs)|;
    SpliceSplice(Bytes(data0, cs), offset, done, chunk);
    assert cs[k] in cs;
  }

  lemma {:induction false} ChainDistinct(nx: seq<nat>, cs: seq<nat>, k: nat)
    requires Chain(nx, cs) && k < |cs|
    ensures cs[k] !in cs[k + 1..]
  {
    if k > 0 {
      ChainDistinct(nx, cs[1..], k - 1);
      assert cs[1..][k..] == cs[k + 1..];
    }
  }

  lemma WritingExtend(data0: seq<seq<Byte>>, data: seq<seq<Byte>>, room: nat, cs: seq<nat>, offset: nat,
                      done: seq<Byte>, c: nat)
    requires Writing(data0, data, room, cs, offset, done) && c !in cs && c < |data|
    ensures Writing(data0, data, room, cs + [c], offset, done)
  {
    assert (cs + [c])[..|cs|] == cs;
    SpliceAppend(Bytes(data0, cs), offset, done, data0[c]);
  }

  lemma FullCluster(was: seq<Byte>, zeros: seq<Byte>, chunk: seq<Byte>)
    requires |was| == |zeros| == |chunk|
    ensures Splice(zeros, 0, chunk) == Splice(was, 0, chunk)
  {
  }

  lemma DataOk(nx: seq<nat>, data: seq<seq<Byte>>, data': seq<seq<Byte>>, room: nat, files: map<nat, File>,
               chains: Chains)
    requires FilesOk(nx, data, room, files, chains) && Clusters(data', room) && |data'| == |data|
    ensures FilesOk(nx, data', room, files, chains)
  {
  }

  class Store {
    const v: Volume
    const room: nat
    var data: seq<seq<Byte>>
    var files: map<nat, File>
    ghost var chains: Chains

    ghost predicate Valid()
      reads this, v
    {
      v.Valid() && FilesOk(v.Nx(), data, room, files, chains)
    }

    /** A volume with its clusters and the files found on it. */
    constructor (volume: Volume, size: nat, contents: seq<seq<Byte>>, known: map<nat, File>, ghost lists: Chains)
      requires volume.Valid() && FilesOk(volume.Nx(), contents, size, known, lists)
      ensures Valid() && v == volume && room == size && data == contents && files == known && chains == lists
    {
      v, room, data, files, chains := volume, size, contents, known, lists;
    }

    /** Hang a new cluster behind the last one of a file; zero when the volume is full. */
    method Extend(f: nat, last: nat) returns (c: nat)
      requires Valid() && f in chains && chains[f] != [] && last == chains[f][|chains[f]| - 1]
      modifies `chains, v
      ensures Valid()
      ensures c == 0 ==> chains == old(chains) && v.Full()
      ensures c != 0 ==> chains == old(chains)[f := old(chains)[f] + [c]]
    {
      hide FilesOk, Chain, Live;
      ghost var nx := v.Nx();
      ghost var cs;
      c, cs := v.AllocChain(1);
      if c == 0 {
        GrownOk(nx, v.Nx(), data, room, files, chains, cs);
        return;
      }
      GrownOne(nx, v.Nx(), cs, c);
      ExtendOk(nx, data, room, files, chains, f, c);
      v.WriteEntry(last, c);
      ghost var linked: seq<nat> := nx[last := c];
      assert v.Nx() == linked[c := LAST];
      chains := chains[f := chains[f] + [c]];
    }

    /** Follow a chain for a number of links; a chain that ends first is reported. */
    method Walk(start: nat, n: nat, ghost f: nat) returns (ok: bool, c: nat)
      requires Valid() && f in files && f in chains && chains[f] != [] && start == chains[f][0]
      ensures ok <==> n < |chains[f]|
      ensures ok ==> c == chains[f][n]
    {
      hide FilesOk, Chain, Live;
      FileRange(v.Nx(), data, room, files, chains, f);
      ghost var cs := chains[f];
      c := start;
      for i := 0 to n
        invariant i < |cs| && c == cs[i]
      {
        ChainAt(v.Nx(), cs, i);
        if i + 1 < |cs| { ChainAt(v.Nx(), cs, i + 1); }
        var next := v.ReadEntry(c);
        if next >= EOC { return false, c; }
        c := next;
      }
      ok := true;
    }

    /** Copy bytes out, cluster by cluster, starting inside the one at index k. */
    method ReadFrom(f: nat, start: nat, k: nat, off: nat, size: nat) returns (out: seq<Byte>)
      requires Valid() && f in files && f in chains && k < |chains[f]| && start == chains[f][k] && off < room
      requires k * room + off + size <= |chains[f]| * room
      ensures InRange(data, chains[f]) && |Bytes(data, chains[f])| == |chains[f]| * room
      ensures out == Bytes(data, chains[f])[k * room + off..k * room + off + size]
    {
      hide FilesOk, Chain, Live, Bytes, Clusters, InRange, Closed, FileOk, Entries;
      FileRange(v.Nx(), data, room, files, chains, f);
      ghost var cs, nx := chains[f], v.Nx();
      ghost var all, at := Bytes(data, cs), k * room + off;
      var cluster, inside := start, off;
      ghost var i := k;
      out := [];
      while |out| < size
        invariant k <= i < |cs| && cluster == cs[i] && 0 <= inside < room
        invariant |out| <= size && i * room + inside == at + |out| && out == all[at..at + |out|]
        decreases size - |out|
      {
        var can := room - inside;
        var now := if can < size - |out| then can else size - |out|;
        ReadChunk(data, room, cs, i, inside, now, at, |out|);
        out := out + data[cluster][inside..inside + now];
        inside := 0;
        if |out| == size { break; }
        NextIndex(i, room, |cs|, at + |out|);
        ChainStep(nx, cs, i);
        var next := v.ReadEntry(cluster);
        if next >= EOC { break; }
        cluster, i := next, i + 1;
      }
    }

    /** One cluster's worth: read it unless it is overwritten whole, change it, write it back. */
    method WriteCluster(c: nat, inside: nat, chunk: seq<Byte>)
      requires c < |data| && |data[c]| == room && inside + |chunk| <= room
      modifies `data
      ensures data == old(data)[c := Splice(old(data)[c], inside, chunk)]
    {
      var tmp: seq<Byte> := data[c];
      if inside == 0 && |chunk| == room {
        tmp := seq(room, _ => 0);
        FullCluster(data[c], tmp, chunk);
      }
      data := data[c := Splice(tmp, inside, chunk)];
    }

    /** The cluster after one of a file, added if there is none. */
    method NextCluster(f: nat, c: nat, ghost i: nat) returns (next: nat)
      requires Valid() && f in files && f in chains && i < |chains[f]| && c == chains[f][i]
      modifies `chains, v
      ensures Valid() && f in chains && old(chains)[f] <= chains[f] && chains == old(chains)[f := chains[f]]
      ensures next != 0 ==> i + 1 < |chains[f]| && next == chains[f][i + 1]
      ensures next != 0 ==> chains[f] == old(chains)[f] || (chains[f] == old(chains)[f] + [next] &&
                                                            next !in old(chains)[f])
      ensures next == 0 ==> chains == old(chains) && v.Full()
      ensures next != 0 ==> next < |data|
    {
      hide FilesOk, Chain, Live, Bytes, FileOk, Entries;
      FileRange(v.Nx(), data, room, files, chains, f);
      ChainAt(v.Nx(), chains[f], i);
      if i + 1 < |chains[f]| { ChainStep(v.Nx(), chains[f], i); }
      next := v.ReadEntry(c);
      if next >= EOC || next == 0 {
        next := Extend(f, c);
        if next != 0 {
          FileRange(v.Nx(), data, room, files, chains, f);
          ChainAt(v.Nx(), chains[f], i + 1);
          assert chains[f][..i + 1] == old(chains)[f];
        }
      }
    }

    method PutChunk(f: nat, c: nat, inside: nat, chunk: seq<Byte>,
                    ghost data0: seq<seq<Byte>>, ghost offset: nat, ghost done: seq<Byte>, ghost i: nat)
      requires Valid() && f in files && f in chains && i < |chains[f]| && c == chains[f][i]
      requires Writing(data0, data, room, chains[f], offset, done)
      requires inside + |chunk| <= room && Pos(i, room) + inside == offset + |done|
      modifies `data
      ensures Valid() && Writing(data0, data, room, chains[f], offset, done + chunk)
    {
      hide FilesOk, Chain, Live, Bytes, FileOk, Entries, Writing, Splice, Closed, InRange, Clusters;
      FileRange(v.Nx(), data, room, files, chains, f);
      WritingStep(data0, data, room, v.Nx(), chains[f], offset, done, i, inside, chunk);
      WritingData(data0, data, room, chains[f], offset, done);
      ghost var before := data;
      WriteCluster(c, inside, chunk);
      WritingData(data0, data, room, chains[f], offset, done + chunk);
      DataOk(v.Nx(), before, data, room, files, chains);
    }

    /** Write bytes, cluster by cluster, starting inside the one at index k; the chain grows when it ends. */
    method WriteFrom(f: nat, start: nat, k: nat, off: nat, buf: seq<Byte>, ghost offset: nat)
      returns (ok: bool, written: nat)
      requires Valid() && f in files && f in chains && k < |chains[f]| && start == chains[f][k] && off < room
      requires Pos(k, room) + off == offset
      modifies `data, `chains, v
      ensures Valid() && f in chains && old(chains)[f] <= chains[f] && chains == old(chains)[f := chains[f]]
      ensures written <= |buf| && Writing(old(data), data, room, chains[f], offset, buf[..written])
      ensures ok ==> written == |buf|
      ensures !ok ==> v.Full()
    {
      hide FilesOk, Chain, Live, Bytes, FileOk, Entries, Writing, Splice, Closed, InRange, Clusters, Pos;
      FileRange(v.Nx(), data, room, files, chains, f);
      StartBelow(data, room, chains[f], k, off);
      WritingStart(data, room, chains[f], offset);
      var cluster, inside := start, off;
      ghost var i := k;
      written := 0;
      while written < |buf|
        invariant Valid() && f in chains && old(chains)[f] <= chains[f] && chains == old(chains)[f := chains[f]]
        invariant written <= |buf| && Writing(old(data), data, room, chains[f], offset, buf[..written])
        invariant 0 <= i < |chains[f]| && cluster == chains[f][i] && 0 <= inside < room
        invariant Pos(i, room) + inside == offset + written
        decreases |buf| - written
      {
        var can := room - inside;
        var now := if can < |buf| - written then can else |buf| - written;
        PutChunk(f, cluster, inside, buf[written..written + now], old(data), offset, buf[..written], i);
        assert buf[..written] + buf[written..written + now] == buf[..written + now];
        written := written + now;
        inside := 0;
        if written == |buf| { break; }
        ghost var cs := chains[f];
        var next := NextCluster(f, cluster, i);
        if next == 0 { return false, written; }
        PosNext(i, room);
        if chains[f] != cs { WritingExtend(old(data), data, room, cs, offset, buf[..written], next); }
        cluster, i := next, i + 1;
      }
      assert buf[..written] == buf;
      ok := true;
    }

    /** The first clusters of a file that has none. */
    method Begin(f: nat, need: nat) returns (ok: bool)
      requires Valid() && f in files && f in chains && files[f].start == 0
      modifies `files, `chains, v
      ensures Valid() && f in files && f in chains
      ensures ok ==> |chains[f]| == need > 0 && chains == old(chains)[f := chains[f]]
      ensures ok ==> files == old(files)[f := File(files[f].start, old(files)[f].size)]
      ensures !ok ==> chains == old(chains) && files == old(files) && (need == 0 || v.Full())
    {
      hide Chain, Live, Entries, Closed, Clusters;
      FileRange(v.Nx(), data, room, files, chains, f);
      ghost var nx := v.Nx();
      NoStart(nx, data, room, files, chains, f);
      var first;
      ghost var cs;
      first, cs := v.AllocChain(need);
      if first == 0 {
        GrownOk(nx, v.Nx(), data, room, files, chains, cs);
        return false;
      }
      FirstOk(nx, v.Nx(), data, room, files, chains, f, cs);
      files := files[f := File(first, files[f].size)];
      chains := chains[f := cs];
      ok := true;
    }

    /** Go to the cluster at an index, adding clusters where the chain is too short. */
    method Reach(f: nat, skip: nat) returns (ok: bool, cluster: nat)
      requires Valid() && f in files && f in chains && chains[f] != []
      modifies `chains, v
      ensures Valid() && f in chains && old(chains)[f] <= chains[f] && chains == old(chains)[f := chains[f]]
      ensures ok ==> skip < |chains[f]| && cluster == chains[f][skip]
      ensures !ok ==> v.Full()
    {
      hide FilesOk, Chain, Live, Bytes, Entries, Closed, Clusters;
      FileRange(v.Nx(), data, room, files, chains, f);
      cluster := files[f].start;
      for i := 0 to skip
        invariant Valid() && f in chains && old(chains)[f] <= chains[f] && chains == old(chains)[f := chains[f]]
        invariant i < |chains[f]| && cluster == chains[f][i]
      {
        cluster := NextCluster(f, cluster, i);
        if cluster == 0 { return false, 0; }
      }
      ok := true;
    }

    /** Write to a file that has clusters. `memory` is whether the cluster buffer can be had. */
    method Transfer(f: nat, buf: seq<Byte>, offset: nat, memory: bool) returns (ok: bool)
      requires Valid() && f in files && f in chains && chains[f] != []
      modifies `data, `chains, v
      ensures Valid() && f in chains && old(chains)[f] <= chains[f] && chains == old(chains)[f := chains[f]]
      ensures Kept(old(data), data, chains[f])
      ensures room > 0 && (ok ==> Writing(old(data), data, room, chains[f], Landing(offset, room), buf))
      ensures !ok ==> !memory || v.Full()
      ensures !memory ==> !ok
    {
      hide FilesOk, FileOk, Chain, Live, Bytes, Entries, Closed, Clusters, Pos, Writing, InRange;
      FileRange(v.Nx(), data, room, files, chains, f);
      PositionOf(offset, room);
      var skip := offset / room % U32;
      var cluster, written;
      ok, cluster := Reach(f, skip);
      if !ok || !memory { return false; }
      ok, written := WriteFrom(f, cluster, skip, offset % room, buf, Landing(offset, room));
      WritingKeeps(old(data), data, room, chains[f], Landing(offset, room), buf[..written]);
      if ok { assert buf[..written] == buf; }
    }

    /** Write to a file at an offset, with new clusters as they are needed. The end of the write and the size
        kept have 32 bits. */
    method Write(f: nat, buf: seq<Byte>, offset: nat, memory: bool) returns (n: int)
      requires Valid() && f in files
      modifies `data, `files, `chains, v
      ensures Valid() && f in files && f in chains && f in old(chains) && old(chains)[f] <= chains[f]
      ensures chains == old(chains)[f := chains[f]] && files == old(files)[f := files[f]]
      ensures n == |buf| || n == -1
      ensures Kept(old(data), data, chains[f])
      ensures n == -1 ==> files[f].size == old(files)[f].size
      ensures buf == [] ==> data == old(data) && files == old(files)
      ensures room > 0
      ensures (n == |buf| && buf != [] ==> Writing(old(data), data, room, chains[f], Landing(offset, room), buf))
      ensures n == |buf| && buf != [] ==> files[f].size == Larger((offset + |buf|) % U32, old(files)[f].size)
      ensures n == |buf| && buf != [] ==>
        (files[f].size == Larger(offset + |buf|, old(files)[f].size) <==> offset + |buf| < U32)
      ensures buf != [] && !memory ==> n == -1
      ensures n == -1 ==>
        !memory || v.Full() || (old(files)[f].start == 0 && Need((offset + |buf|) % U32, room) == 0)
      ensures buf != [] && old(files)[f].start == 0 && Need((offset + |buf|) % U32, room) == 0 ==> n == -1
    {
      hide FilesOk, FileOk, Chain, Live, Bytes, Entries, Closed, Clusters, Writing, InRange, Landing, Need, Larger;
      FileRange(v.Nx(), data, room, files, chains, f);
      SizeBelow(v.Nx(), data, room, files, chains, f, offset + |buf|);
      if buf == [] { return 0; }
      var endpos := (offset + |buf|) % U32;
      var need := Need(endpos, room);
      HasStart(v.Nx(), data, room, files, chains, f);
      if files[f].start == 0 {
        var begun := Begin(f, need);
        if !begun { return -1; }
      }
      var ok := Transfer(f, buf, offset, memory);
      if !ok { return -1; }
      EndWithin(offset, |buf|, room);
      SizeOk(v.Nx(), old(data), data, room, files, chains, f, Landing(offset, room), buf, endpos);
      files := files[f := File(files[f].start, Larger(endpos, files[f].size))];
      n := |buf|;
    }

    /** What is written is read back exactly when it ends below 4 GiB. */
    method WriteThenRead(f: nat, buf: seq<Byte>, offset: nat, memory: bool) returns (n: int, out: seq<Byte>)
      requires Valid() && f in files
      modifies `data, `files, `chains, v
      ensures Valid() && f in files
      ensures n == |buf| && buf != [] ==> (out == buf <==> offset + |buf| < U32)
      ensures n == |buf| && buf != [] && offset + |buf| == U32 ==> files[f].size == old(files)[f].size
    {
      hide FilesOk, Chain, Live, Bytes, Entries, Closed, Clusters, Writing, InRange, Landing, Need;
      n := Write(f, buf, offset, memory);
      out := Read(f, |buf|, offset);
      FileRange(v.Nx(), data, room, files, chains, f);
      if n == |buf| && buf != [] && offset + |buf| < U32 {
        Lands(offset, room);
        WriteReads(old(data), data, room, chains[f], offset, buf);
      }
    }

    /** Empty a file and free its clusters. `synced` is whether its directory entry could be updated. */
    method Truncate(f: nat, synced: bool) returns (r: int)
      requires Valid() && f in files
      modifies `files, `chains, v
      ensures Valid() && f in old(chains)
      ensures !synced ==> r == -5 && files == old(files) && chains == old(chains)
      ensures synced ==> r == 0 && files == old(files)[f := File(0, 0)] && chains == old(chains)[f := []]
      ensures synced ==> v.Valid() && old(v.Valid()) && v.Nx() == Zeroed(old(v.Nx()), old(chains)[f])
    {
      FileRange(v.Nx(), data, room, files, chains, f);
      TruncatedOk(v.Nx(), data, room, files, chains, f);
      hide FilesOk, FileOk, Chain, Live, Bytes, Entries, Clusters, InRange, ClearedFrom;
      var chain, size := files[f].start, files[f].size;
      files := files[f := File(0, 0)];
      if !synced {
        files := files[f := File(chain, size)];
        assert files == old(files);
        return -5;
      }
      v.FreeChain(chain);
      chains := chains[f := []];
      r := 0;
    }

    /** Bytes of a file from an offset, as many as asked for and recorded in its size. */
    method Read(f: nat, size: nat, offset: nat) returns (out: seq<Byte>)
      requires Valid() && f in files
      ensures f in chains && InRange(data, chains[f]) && files[f].size <= |Bytes(data, chains[f])|
      ensures offset >= files[f].size ==> out == []
      ensures offset < files[f].size ==>
        out == Bytes(data, chains[f])[offset..if offset + size > files[f].size then files[f].size else offset + size]
    {
      hide FilesOk, FileOk, Chain, Live, Bytes, Clusters, InRange, Closed, Entries;
      FileRange(v.Nx(), data, room, files, chains, f);
      StartKnown(v.Nx(), data, room, files, chains, f);
      var fh := files[f];
      if fh.start < 2 || fh.size == 0 { return []; }
      if offset >= fh.size { return []; }
      var toread := size;
      if offset + size > fh.size { toread := fh.size - offset; }
      var k, off := Where(offset, room);
      Inside(k, off, room, |chains[f]|);
      var ok, cluster := Walk(fh.start, k, f);
      if !ok { return []; }
      out := ReadFrom(f, cluster, k, off, toread);
    }
  }

  /** A position as a cluster index and a place inside the cluster. */
  method Where(pos: nat, room: nat) returns (k: nat, off: nat)
    requires room > 0
    ensures k * room + off == pos && off < room
  {
    PositionOf(pos, room);
    k, off := pos / room, pos % room;
  }

  lemma Inside(k: nat, off: nat, room: nat, n: nat)
    requires k * room + off < n * room
    ensures k < n
  {
    if k >= n { MulOrder(n, k, room); }
  }

  lemma WritingData(data0: seq<seq<Byte>>, data: seq<seq<Byte>>, room: nat, cs: seq<nat>, offset: nat, done: seq<Byte>)
    requires Writing(data0, data, room, cs, offset, done)
    ensures |data| == |data0| && Clusters(data, room)
  {
  }

  lemma StartBelow(data: seq<seq<Byte>>, room: nat, cs: seq<nat>, k: nat, off: nat)
    requires Clusters(data, room) && InRange(data, cs) && k < |cs| && off < room
    ensures Pos(k, room) + off <= |Bytes(data, cs)|
  {
    BytesLength(data, room, cs);
    MulOrder(k + 1, |cs|, room);
    assert (k + 1) * room == k * room + room;
  }

  /** The number of the cluster a write starts in has 32 bits. */
  function Landing(offset: nat, room: nat): nat
    requires room > 0
  {
    Pos(offset / room % U32, room) + offset % room
  }

  lemma Lands(offset: nat, room: nat)
    requires room > 0
    ensures Landing(offset, room) <= offset
    ensures Landing(offset, room) == offset <==> offset / room < U32
    ensures offset < U32 ==> offset / room < U32
    ensures exists q :: offset == Landing(offset, room) + q * U32
  {
    var k := offset / room;
    PositionOf(offset, room);
    PositionOf(k, U32);
    ScaleWrap(k, k % U32, k / U32, room);
    MulOrder(k % U32, k, room);
    if k % U32 < k { MulOrder(k % U32 + 1, k, room); assert (k % U32 + 1) * room == k % U32 * room + room; }
    MulOrder(1, room, k);
    assert offset == Landing(offset, room) + (k / U32 * room) * U32;
  }

  lemma ScaleWrap(k: nat, r: nat, q: nat, room: nat)
    requires k == q * U32 + r
    ensures k * room == r * room + (q * room) * U32
  {
  }

  /** The low 32 bits of where a write ends lie within the bytes it has written. */
  lemma EndWithin(offset: nat, n: nat, room: nat)
    requires room > 0
    ensures (offset + n) % U32 <= Landing(offset, room) + n
  {
    Lands(offset, room);
    hide Landing;
    var q :| offset == Landing(offset, room) + q * U32;
    WrapAdd(Landing(offset, room) + n, q);
  }

  lemma {:induction false} WrapAdd(x: nat, q: nat)
    ensures (x + q * U32) % U32 == x % U32 <= x
  {
    if q > 0 {
      WrapAdd(x, q - 1);
      assert x + q * U32 == x + (q - 1) * U32 + U32;
    }
  }

  /** How many clusters a write asks for in a file that has none. */
  function Need(end: nat, room: nat): nat
    requires room > 0
  {
    (end + room - 1) % U32 / room
  }

  /** They hold the bytes, with less than a cluster to spare, unless the rounding up wraps; then none are asked
      for. */
  lemma NeedIs(end: nat, room: nat)
    requires 0 < room <= U32 && end < U32
    ensures end <= U32 - room ==> end <= Need(end, room) * room < end + room
    ensures end > U32 - room ==> Need(end, room) == 0
    ensures Need(end, room) == 0 <==> end == 0 || end > U32 - room
  {
    var x := (end + room - 1) % U32;
    PositionOf(x, room);
    if end > U32 - room { assert x == end + room - 1 - U32 < room; }
    if Need(end, room) != 0 { MulOrder(1, Need(end, room), room); }
  }

  /** What one file's write leaves of the others: everything. */
  lemma OthersKept(nx: seq<nat>, data0: seq<seq<Byte>>, data: seq<seq<Byte>>, chains: Chains, f: nat, g: nat)
    requires Live(nx, chains) && f in chains && g in chains && f != g && Kept(data0, data, chains[f])
    requires InRange(data0, chains[g])
    ensures Bytes(data, chains[g]) == Bytes(data0, chains[g])
  {
    forall i | 0 <= i < |chains[g]| ensures data[chains[g][i]] == data0[chains[g][i]] {
      assert chains[g][i] in chains[g];
    }
    BytesFrame(data0, data, chains[g]);
  }

  /** What has been written is what is there, and around it the file is as it was. */
  lemma WriteReads(data0: seq<seq<Byte>>, data: seq<seq<Byte>>, room: nat, cs: seq<nat>, offset: nat, buf: seq<Byte>)
    requires Writing(data0, data, room, cs, offset, buf)
    ensures offset + |buf| <= |Bytes(data, cs)| && Bytes(data, cs)[offset..offset + |buf|] == buf
    ensures Bytes(data, cs)[..offset] == Bytes(data0, cs)[..offset]
    ensures Bytes(data, cs)[offset + |buf|..] == Bytes(data0, cs)[offset + |buf|..]
  {
    hide Bytes;
  }

  /** Clusters off a chain hold what they held. */
  ghost predicate Kept(data0: seq<seq<Byte>>, data: seq<seq<Byte>>, cs: seq<nat>)
  {
    |data| == |data0| && forall c :: 0 <= c < |data| && c !in cs ==> data[c] == data0[c]
  }

  lemma NoStart(nx: seq<nat>, data: seq<seq<Byte>>, room: nat, files: map<nat, File>, chains: Chains, f: nat)
    requires FilesOk(nx, data, room, files, chains) && f in files && f in chains && files[f].start == 0
    ensures chains[f] == []
  {
    assert FileOk(files[f], chains[f], room);
    ChainRange(nx, chains[f]);
  }

  /** A file with no clusters is empty; one with clusters starts at its first. */
  lemma StartKnown(nx: seq<nat>, data: seq<seq<Byte>>, room: nat, files: map<nat, File>, chains: Chains, f: nat)
    requires FilesOk(nx, data, room, files, chains) && f in files && f in chains
    ensures files[f].start < 2 ==> files[f].size == 0
    ensures files[f].start >= 2 ==> chains[f] != [] && files[f].start == chains[f][0]
    ensures files[f].size <= |chains[f]| * room
    ensures InRange(data, chains[f]) && |Bytes(data, chains[f])| == |chains[f]| * room
  {
    FileRange(nx, data, room, files, chains, f);
    if chains[f] != [] { ChainAt(nx, chains[f], 0); }
    BytesLength(data, room, chains[f]);
  }

  /** Keeping the low 32 bits of an end keeps the end exactly below 4 GiB. */
  lemma SizeBelow(nx: seq<nat>, data: seq<seq<Byte>>, room: nat, files: map<nat, File>, chains: Chains, f: nat,
                  end: nat)
    requires FilesOk(nx, data, room, files, chains) && f in files && f in chains
    ensures Larger(end % U32, files[f].size) == Larger(end, files[f].size) <==> end < U32
  {
    assert FileOk(files[f], chains[f], room);
  }

  lemma HasStart(nx: seq<nat>, data: seq<seq<Byte>>, room: nat, files: map<nat, File>, chains: Chains, f: nat)
    requires FilesOk(nx, data, room, files, chains) && f in files && f in chains
    ensures files[f].start != 0 ==> chains[f] != []
  {
    assert FileOk(files[f], chains[f], room);
  }

  lemma WritingKeeps(data0: seq<seq<Byte>>, data: seq<seq<Byte>>, room: nat, cs: seq<nat>, offset: nat, done: seq<Byte>)
    requires Writing(data0, data, room, cs, offset, done)
    ensures Kept(data0, data, cs)
  {
  }

  lemma SizeOk(nx: seq<nat>, data0: seq<seq<Byte>>, data: seq<seq<Byte>>, room: nat, files: map<nat, File>,
               chains: Chains,
               f: nat, offset: nat, buf: seq<Byte>, end: nat)
    requires FilesOk(nx, data, room, files, chains) && f in files && f in chains
    requires Writing(data0, data, room, chains[f], offset, buf) && end <= offset + |buf| && end < U32
    ensures var fh := files[f];
      FilesOk(nx, data, room, files[f := File(fh.start, Larger(end, fh.size))], chains)
  {
    FileRange(nx, data, room, files, chains, f);
    hide Live, Clusters, Chain, Bytes;
    assert |Bytes(data, chains[f])| == |Bytes(data0, chains[f])|;
  }

  /** Where cluster i of a file begins. */
  function Pos(i: nat, room: nat): nat
  {
    i * room
  }

  lemma PosNext(i: nat, room: nat)
    ensures Pos(i + 1, room) == Pos(i, room) + room
  {
  }

  /** One more cluster's worth of reading. */
  lemma ReadChunk(data: seq<seq<Byte>>, room: nat, cs: seq<nat>, i: nat, off: nat, now: nat, at: nat, had: nat)
    requires Clusters(data, room) && InRange(data, cs) && i < |cs| && off + now <= room && i * room + off == at + had
    ensures cs[i] < |data| && |data[cs[i]]| == room && at + had + now <= |Bytes(data, cs)|
    ensures Bytes(data, cs)[at..at + had] + data[cs[i]][off..off + now] == Bytes(data, cs)[at..at + had + now]
  {
    PrefixLength(data, room, cs, i);
    ClusterRead(data, cs, i, off, now);
    hide Bytes;
    var all := Bytes(data, cs);
    assert all[at..at + had + now] == all[at..at + had] + all[at + had..at + had + now];
  }

  lemma ChainStep(nx: seq<nat>, cs: seq<nat>, i: nat)
    requires Chain(nx, cs) && i + 1 < |cs| && Closed(nx)
    ensures 2 <= cs[i] < |nx| && nx[cs[i]] == cs[i + 1] && 2 <= cs[i + 1] < |nx| <= EOC
  {
    ChainAt(nx, cs, i);
    ChainAt(nx, cs, i + 1);
  }

  /** A place right after cluster i but before the end of the chain is in cluster i + 1. */
  lemma NextIndex(i: nat, room: nat, m: nat, x: nat)
    requires room > 0 && x == i * room + room && x < m * room
    ensures i + 1 < m && (i + 1) * room == x
  {
    if i + 1 >= m { MulOrder(m, i + 1, room); }
  }

  lemma PrefixLength(data: seq<seq<Byte>>, room: nat, cs: seq<nat>, k: nat)
    requires Clusters(data, room) && InRange(data, cs) && k <= |cs|
    ensures InRange(data, cs[..k]) && |Bytes(data, cs[..k])| == k * room
  {
    BytesLength(data, room, cs[..k]);
  }

  lemma GrownOne(nx0: seq<nat>, nx: seq<nat>, cs: seq<nat>, c: nat)
    requires Grown(nx0, nx, cs) && |cs| == 1 && cs[0] == c
    ensures 2 <= c < |nx0| && nx0[c] == 0 && nx == nx0[c := LAST]
  {
    assert c in cs;
    assert forall d :: d in cs ==> d == c;
  }
}
