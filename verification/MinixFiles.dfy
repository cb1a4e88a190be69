/** Regular files of a Minix volume: every byte of every file, before and after reads and writes. */
module MinixFiles {
  import opened Basics
  import opened MinixBlocks
  import opened MinixBits
  import opened MinixTree
  import opened MinixLayout
  import opened MinixVolume

  /** The byte of a file at a position; holes and places past the last block are zero. */
  function ByteAt(g: Geo, zones: Zones, nd: Inode, pos: nat): Byte
    requires g.bs > 0
  {
    var d := BlockData(g, zones, nd, pos / g.bs);
    if pos % g.bs < |d| then d[pos % g.bs] else 0
  }

  /** The bytes done stand at offset of file f, and every other byte of every file is as it was. */
  ghost predicate Written(g: Geo, zones0: Zones, files0: Inodes, zones: Zones, files: Inodes, f: nat, offset: nat,
                          done: seq<Byte>)
    requires g.bs > 0
  {
    && files.Keys == files0.Keys
    && forall ino, pos: nat ::
         ino in files && ino in files0 ==>
           ByteAt(g, zones, files[ino], pos) ==
           if ino == f && offset <= pos < offset + |done| then done[pos - offset]
               else ByteAt(g, zones0, files0[ino], pos)
  }

  lemma WrittenNone(g: Geo, zones: Zones, files: Inodes, f: nat, offset: nat)
    requires g.bs > 0
    ensures Written(g, zones, files, zones, files, f, offset, [])
  {
  }

  lemma WrittenSeen(g: Geo, zones0: Zones, files0: Inodes, zones: Zones, files: Inodes, f: nat, offset: nat,
                    done: seq<Byte>,
                    zones': Zones, files': Inodes)
    requires g.bs > 0 && Written(g, zones0, files0, zones, files, f, offset, done)
    requires SameSeen(g, zones, files, zones', files')
    ensures Written(g, zones0, files0, zones', files', f, offset, done)
  {
    hide BlockData;
    forall ino, pos: nat | ino in files'
      ensures ByteAt(g, zones', files'[ino], pos) ==
        if ino == f && offset <= pos < offset + |done| then done[pos - offset] else ByteAt(g, zones0, files0[ino], pos)
    {
      assert BlockData(g, zones', files'[ino], pos / g.bs) == BlockData(g, zones, files[ino], pos / g.bs);
      assert ByteAt(g, zones, files[ino], pos) == ByteAt(g, zones', files'[ino], pos);
    }
  }

  /** Changing the zone of one block of a file changes that block alone. */
  lemma BlockPut(g: Geo, zones: Zones, zmap: seq<Byte>, files: Inodes, own: Owners, f: nat, blk: nat, b: seq<Byte>)
    requires Ok(g, zones, zmap, files, own) && f in files && BlockZone(g, zones, files[f], blk) != 0 && |b| == g.bs
    ensures BlockZone(g, zones, files[f], blk) < |zones|
    ensures Ok(g, zones[BlockZone(g, zones, files[f], blk) := b], zmap, files, own)
    ensures forall ino, k :: ino in files ==>
      BlockData(g, zones[BlockZone(g, zones, files[f], blk) := b], files[ino], k) ==
      if ino == f && k == blk then b else BlockData(g, zones, files[ino], k)
  {
    var ppb, z := PtrsPerBlock(g), BlockZone(g, zones, files[f], blk);
    var s := BlockSite(blk, ppb).value;
    BlockSiteData(blk, ppb);
    assert own[z] == Place(f, s) && g.first <= z < g.nzones;
    var zones' := zones[z := b];
    hide Test, Flushed, Synced;
    FlushedFrame(g, zones, zmap, z, b);
    SyncedFrame(zones, zones', g, files);
    SameTreeSound(zones, zones', g.w, files, own);
    forall ino, k | ino in files
      ensures BlockData(g, zones', files[ino], k) == if ino == f && k == blk then b
              else BlockData(g, zones, files[ino], k)
    {
      BlockPutAt(g, zones, zmap, files, own, f, blk, b, ino, k);
    }
  }

  lemma BlockPutAt(g: Geo, zones: Zones, zmap: seq<Byte>, files: Inodes, own: Owners, f: nat, blk: nat, b: seq<Byte>,
                   ino: nat, k: nat)
    requires Ok(g, zones, zmap, files, own) && f in files && BlockZone(g, zones, files[f], blk) != 0
    requires BlockZone(g, zones, files[f], blk) < |zones| && ino in files
    ensures BlockData(g, zones[BlockZone(g, zones, files[f], blk) := b], files[ino], k) ==
      if ino == f && k == blk then b else BlockData(g, zones, files[ino], k)
  {
    hide Ok, BlockSite, ZoneAt, PtrsPerBlock, PointerSite, Sound;
    var ppb, z := PtrsPerBlock(g), BlockZone(g, zones, files[f], blk);
    BlockOwned(g, zones, zmap, files, own, f, blk);
    var s, zones' := BlockSite(blk, ppb).value, zones[z := b];
    match BlockSite(k, ppb)
    case None =>
    case Some(t) =>
      SameTree(zones, zones', g.w, files, own, ino, t);
      if ino != f || k != blk {
        if blk != k { BlockSiteInjective(blk, k, ppb); }
        SitesDistinct(zones, g.w, files, own, f, s, ino, t);
      }
  }

  lemma BlockOwned(g: Geo, zones: Zones, zmap: seq<Byte>, files: Inodes, own: Owners, f: nat, blk: nat)
    requires Ok(g, zones, zmap, files, own) && f in files && BlockZone(g, zones, files[f], blk) != 0
    ensures Sound(zones, g.w, files, own) && BlockSite(blk, PtrsPerBlock(g)).Some?
    ensures var z, s := BlockZone(g, zones, files[f], blk), BlockSite(blk, PtrsPerBlock(g)).value;
      && z == ZoneAt(zones, g.w, files[f], s) && z in own && own[z] == Place(f, s) && !PointerSite(s)
      && g.first <= z < g.nzones
  {
    BlockSiteData(blk, PtrsPerBlock(g));
  }

  lemma PosIn(pos: nat, bs: nat, k: nat, off: nat, n: nat)
    requires bs > 0 && off + n <= bs
    ensures pos / bs == k && off <= pos % bs < off + n <==> k * bs + off <= pos < k * bs + off + n
  {
    DivMod(pos, bs);
    if k * bs + off <= pos < k * bs + off + n { DivIs(pos, bs, k); }
  }

  lemma DivMod(x: nat, n: nat)
    requires n > 0
    ensures x == x / n * n + x % n && x % n < n
  {
  }

  lemma DivIs(x: nat, n: nat, q: nat)
    requires n > 0 && q * n <= x < q * n + n
    ensures x / n == q && x % n == x - q * n
  {
    DivMod(x, n);
    if x / n < q { TimesOrder(n, x / n + 1, q); }
    if x / n > q { TimesOrder(n, q + 1, x / n); }
  }

  /** A byte after part of one block has been replaced. */
  lemma ByteSpliced(g: Geo, zones: Zones, zones': Zones, nd: Inode, blk: nat, off: nat, chunk: seq<Byte>, pos: nat)
    requires g.bs > 0 && off + |chunk| <= g.bs && |BlockData(g, zones, nd, blk)| == g.bs
    requires BlockData(g, zones', nd, BlockOf(g, pos)) ==
      if BlockOf(g, pos) == blk then Splice(BlockData(g, zones, nd, blk), off, chunk)
          else BlockData(g, zones, nd, BlockOf(g, pos))
    ensures ByteAt(g, zones', nd, pos) ==
      if blk * g.bs + off <= pos < blk * g.bs + off + |chunk| then chunk[pos - blk * g.bs - off]
          else ByteAt(g, zones, nd, pos)
  {
    hide BlockData;
    PosIn(pos, g.bs, blk, off, |chunk|);
    DivMod(pos, g.bs);
  }

  /** One block's worth of writing. */
  lemma WrittenPut(g: Geo, zones0: Zones, files0: Inodes, zones: Zones, files: Inodes, f: nat, offset: nat,
                   done: seq<Byte>,
                   zones': Zones, blk: nat, off: nat, chunk: seq<Byte>)
    requires g.bs > 0 && Written(g, zones0, files0, zones, files, f, offset, done) && f in files
    requires blk * g.bs + off == offset + |done| && off + |chunk| <= g.bs
    requires |BlockData(g, zones, files[f], blk)| == g.bs
    requires forall ino, k :: ino in files ==>
      BlockData(g, zones', files[ino], k) ==
      if ino == f && k == blk then Splice(BlockData(g, zones, files[f], blk), off, chunk)
          else BlockData(g, zones, files[ino], k)
    ensures Written(g, zones0, files0, zones', files, f, offset, done + chunk)
  {
    hide BlockData, Splice, ByteAt;
    forall ino, pos: nat | ino in files
      ensures ByteAt(g, zones', files[ino], pos) ==
        if ino == f && offset <= pos < offset + |done + chunk| then (done + chunk)[pos - offset]
        else ByteAt(g, zones0, files0[ino], pos)
    {
      var k := BlockOf(g, pos);
      assert BlockData(g, zones', files[ino], k) ==
        if ino == f && k == blk then Splice(BlockData(g, zones, files[f], blk), off, chunk)
        else BlockData(g, zones, files[ino], k);
      if ino == f {
        ByteSpliced(g, zones, zones', files[f], blk, off, chunk, pos);
      } else {
        ByteSame(g, zones, zones', files[ino], pos);
      }
    }
  }

  function BlockOf(g: Geo, pos: nat): nat
    requires g.bs > 0
  {
    pos / g.bs
  }

  lemma ByteSame(g: Geo, zones: Zones, zones': Zones, nd: Inode, pos: nat)
    requires g.bs > 0 && BlockData(g, zones', nd, BlockOf(g, pos)) == BlockData(g, zones, nd, BlockOf(g, pos))
    ensures ByteAt(g, zones', nd, pos) == ByteAt(g, zones, nd, pos)
  {
  }

  lemma Whole(s: seq<Byte>, t: seq<Byte>, b: seq<Byte>)
    requires |s| == |t| == |b|
    ensures Splice(s, 0, b) == Splice(t, 0, b)
  {
  }

  ghost function FileBytes(g: Geo, zones: Zones, nd: Inode, from: nat, n: nat): (s: seq<Byte>)
    requires g.bs > 0
    ensures |s| == n
  {
    if n == 0 then [] else FileBytes(g, zones, nd, from, n - 1) + [ByteAt(g, zones, nd, from + n - 1)]
  }

  lemma DataByte(g: Geo, zones: Zones, nd: Inode, blk: nat, off: nat)
    requires g.bs > 0 && off < g.bs && |BlockData(g, zones, nd, blk)| == g.bs
    ensures ByteAt(g, zones, nd, blk * g.bs + off) == BlockData(g, zones, nd, blk)[off]
  {
    hide BlockData;
    DivIs(blk * g.bs + off, g.bs, blk);
  }

  lemma {:induction false} BytesNext(g: Geo, zones: Zones, nd: Inode, from: nat, n: nat, blk: nat, off: nat, c: nat)
    requires g.bs > 0 && blk * g.bs + off == from + n && off + c <= g.bs && |BlockData(g, zones, nd, blk)| == g.bs
    ensures FileBytes(g, zones, nd, from, n) + BlockData(g, zones, nd, blk)[off..off + c] ==
              FileBytes(g, zones, nd, from, n + c)
    decreases c
  {
    hide BlockData, ByteAt;
    var d := BlockData(g, zones, nd, blk);
    if c > 0 {
      BytesNext(g, zones, nd, from, n, blk, off, c - 1);
      DataByte(g, zones, nd, blk, off + c - 1);
      assert d[off..off + c] == d[off..off + c - 1] + [d[off + c - 1]];
    }
  }

  lemma RoomInBlock(v: Volume)
    requires v.Valid()
    ensures v.g.bs > 0
  {
  }

  /** Copy bytes of a file out, block by block; holes give zeros. */
  method Read(v: Volume, f: nat, size: nat, offset: nat) returns (out: seq<Byte>)
    requires v.Valid() && f in v.files
    ensures v.g.bs > 0
    ensures |out| == if offset >= v.files[f].size then 0
                     else if offset + size > v.files[f].size then v.files[f].size - offset else size
    ensures out == FileBytes(v.g, v.zones, v.files[f], offset, |out|)
  {
    hide Ok, BlockData, FileBytes, BlockZone;
    RoomInBlock(v);
    out := [];
    if offset >= v.files[f].size { return; }
    var want := if offset + size > v.files[f].size then v.files[f].size - offset else size;
    while |out| < want
      invariant |out| <= want && out == FileBytes(v.g, v.zones, v.files[f], offset, |out|)
      decreases want - |out|
    {
      var blk, off := Split(v.g, offset + |out|);
      var chunk := v.g.bs - off;
      if chunk > want - |out| { chunk := want - |out|; }
      var z := v.FindZone(f, blk);
      var data := ReadBlock(v, f, blk, z);
      BytesNext(v.g, v.zones, v.files[f], offset, |out|, blk, off, chunk);
      out := out + data[off..off + chunk];
    }
  }

  /** A position as a block and a place inside it. */
  method Split(g: Geo, pos: nat) returns (blk: nat, off: nat)
    requires g.bs > 0
    ensures blk * g.bs + off == pos && off < g.bs && blk == BlockOf(g, pos)
  {
    DivMod(pos, g.bs);
    blk, off := pos / g.bs, pos % g.bs;
  }

  method ReadBlock(v: Volume, f: nat, blk: nat, z: int) returns (data: seq<Byte>)
    requires v.Valid() && f in v.files
    requires z == if BlockZone(v.g, v.zones, v.files[f], blk) == 0 then -1 else BlockZone(v.g, v.zones, v.files[f], blk)
    ensures data == BlockData(v.g, v.zones, v.files[f], blk) && |data| == v.g.bs
  {
    if z < 0 { return Blanks(v.g.bs); }
    BlockOwned(v.g, v.zones, v.zmap, v.files, v.own, f, blk);
    data := v.zones[z];
  }

  /** One block: read it unless it is overwritten whole, change it, write it back. */
  method PutBlock(v: Volume, f: nat, blk: nat, z: nat, off: nat, chunk: seq<Byte>,
                  ghost zones0: Zones, ghost files0: Inodes, ghost offset: nat, ghost done: seq<Byte>)
    requires v.Valid() && f in v.files && z == BlockZone(v.g, v.zones, v.files[f], blk) != 0 && v.g.bs > 0
    requires Written(v.g, zones0, files0, v.zones, v.files, f, offset, done)
    requires blk * v.g.bs + off == offset + |done| && off + |chunk| <= v.g.bs
    modifies v`zones
    ensures v.Valid() && Written(v.g, zones0, files0, v.zones, v.files, f, offset, done + chunk)
  {
    hide Ok, Written, BlockZone, Splice;
    ZoneIs(v.g, v.zones, v.zmap, v.files, v.own, f, blk);
    var data := v.zones[z];
    if off == 0 && |chunk| == v.g.bs {
      data := Blanks(v.g.bs);
      Whole(v.zones[z], data, chunk);
    }
    BlockPut(v.g, v.zones, v.zmap, v.files, v.own, f, blk, Splice(v.zones[z], off, chunk));
    WrittenPut(v.g, zones0, files0, v.zones, v.files, f, offset, done, v.zones[z := Splice(v.zones[z], off, chunk)],
               blk, off, chunk);
    v.zones := v.zones[z := Splice(data, off, chunk)];
  }

  lemma ZoneIs(g: Geo, zones: Zones, zmap: seq<Byte>, files: Inodes, own: Owners, f: nat, blk: nat)
    requires Ok(g, zones, zmap, files, own) && f in files && BlockZone(g, zones, files[f], blk) != 0
    ensures BlockZone(g, zones, files[f], blk) < |zones|
    ensures zones[BlockZone(g, zones, files[f], blk)] == BlockData(g, zones, files[f], blk)
    ensures |BlockData(g, zones, files[f], blk)| == g.bs
  {
    BlockOwned(g, zones, zmap, files, own, f, blk);
  }

  /** The size of a file on record, with the inode stored. */
  method SetSize(v: Volume, f: nat, size: nat)
    requires v.Valid() && f in v.files && size < U32
    modifies v`zones, v`files
    ensures v.Valid() && v.files == old(v.files)[f := old(v.files)[f].(size := size)]
    ensures SameSeen(v.g, old(v.zones), old(v.files), v.zones, v.files)
  {
    hide Sound, Marked, Flushed, Synced, SameSeen, BlockData;
    InodeShape(v.g, v.zones, v.files, f);
    LimitFour();
    var nd := v.files[f].(size := size);
    ghost var zs, fs := v.zones, v.files;
    v.StoreInode(f, nd);
    SizeSame(v.g, zs, v.zmap, fs, v.own, f, size);
    ghost var ib := v.g.InodeBlock(f);
    TableWrite(v.g, zs, v.zmap, v.files, v.own, ib, v.zones[ib]);
    SeenTrans(v.g, zs, fs, zs, v.files, v.zones, v.files);
  }

  lemma LimitFour()
    ensures Limit(4) == U32
  {
    WidthLimit(4);
  }

  /** Where the zones of a file are does not depend on its size. */
  lemma SizeSame(g: Geo, zones: Zones, zmap: seq<Byte>, files: Inodes, own: Owners, f: nat, size: nat)
    requires TreeOk(g, zones, zmap, files, own) && f in files
    ensures TreeOk(g, zones, zmap, files[f := files[f].(size := size)], own)
    ensures SameSeen(g, zones, files, zones, files[f := files[f].(size := size)])
  {
    var files' := files[f := files[f].(size := size)];
    hide Marked, Flushed, Deref;
    forall ino, s | ino in files ensures ZoneAt(zones, g.w, files'[ino], s) == ZoneAt(zones, g.w, files[ino], s) {
      assert forall i :: SlotAt(files'[ino], i) == SlotAt(files[ino], i);
    }
  }

  /** Write to a file, in place or past its end; a start beyond the end is refused. The size kept has 32 bits:
      it is the larger of the old size and the end of the write exactly for writes that end below 4 GiB. */
  method Write(v: Volume, f: nat, buf: seq<Byte>, offset: nat) returns (n: int)
    requires v.Valid() && f in v.files
    modifies v`zones, v`zmap, v`files, v`own
    ensures v.Valid() && f in v.files && v.g.bs > 0
    ensures n == -1 || 0 <= n <= |buf|
    ensures offset > old(v.files)[f].size ==> n == -1
    ensures n == -1 ==> buf != [] || offset > old(v.files)[f].size
    ensures n < |buf| && offset <= old(v.files)[f].size ==>
      NoneFree(v.g, v.zmap) ||
      BlockSite(BlockOf(v.g, offset + if n < 0 then 0 else n), PtrsPerBlock(v.g)).None?
    ensures Written(v.g, old(v.zones), old(v.files), v.zones, v.files, f, offset, if n < 0 then [] else buf[..n])
    ensures v.files == old(v.files)[f := Inode(old(v.files)[f].mode, v.files[f].size, v.files[f].zone)]
    ensures v.files[f].size == if n == |buf| && offset + |buf| > old(v.files)[f].size then (offset + |buf|) % U32
                               else old(v.files)[f].size
    ensures n == |buf| ==> (v.files[f].size == Larger(offset + |buf|, old(v.files)[f].size) <==> offset + |buf| < U32)
  {
    hide Ok, Written, SameSeen, BlockZone, BlockData, NoneFree, BlockSite, PtrsPerBlock, BlockOf;
    RoomInBlock(v);
    SizeFits(v, f);
    WrittenNone(v.g, v.zones, v.files, f, offset);
    if offset > v.files[f].size { return -1; }
    var done := 0;
    while done < |buf|
      invariant 0 <= done <= |buf| && v.Valid() && f in v.files && v.g.bs > 0
      invariant Written(v.g, old(v.zones), old(v.files), v.zones, v.files, f, offset, buf[..done])
      invariant v.files == old(v.files)[f := old(v.files)[f].(zone := v.files[f].zone)]
      decreases |buf| - done
    {
      var blk, off := Split(v.g, offset + done);
      var chunk := v.g.bs - off;
      if chunk > |buf| - done { chunk := |buf| - done; }
      ghost var zs, fs := v.zones, v.files;
      var zone := v.GetZone(f, blk, true);
      WrittenSeen(v.g, old(v.zones), old(v.files), zs, fs, f, offset, buf[..done], v.zones, v.files);
      if zone < 0 { return if done > 0 then done else -1; }
      PutBlock(v, f, blk, zone, off, buf[done..done + chunk], old(v.zones), old(v.files), offset, buf[..done]);
      assert buf[..done] + buf[done..done + chunk] == buf[..done + chunk];
      done := done + chunk;
    }
    if offset + done > v.files[f].size {
      ghost var zs, fs := v.zones, v.files;
      SetSize(v, f, (offset + done) % U32);
      WrittenSeen(v.g, old(v.zones), old(v.files), zs, fs, f, offset, buf[..done], v.zones, v.files);
    }
    n := done;
  }

  lemma SizeFits(v: Volume, f: nat)
    requires v.Valid() && f in v.files
    ensures v.files[f].size < U32
  {
    InodeShape(v.g, v.zones, v.files, f);
    LimitFour();
  }

  lemma {:induction false} WrittenBack(g: Geo, zones0: Zones, files0: Inodes, zones: Zones, files: Inodes, f: nat,
                                       offset: nat,
                                       done: seq<Byte>, n: nat)
    requires g.bs > 0 && Written(g, zones0, files0, zones, files, f, offset, done) && f in files && n <= |done|
    ensures FileBytes(g, zones, files[f], offset, n) == done[..n]
  {
    hide ByteAt;
    if n > 0 {
      WrittenBack(g, zones0, files0, zones, files, f, offset, done, n - 1);
      assert ByteAt(g, zones, files[f], offset + (n - 1)) == done[n - 1];
    }
  }

  /** What is written in full is read back in full exactly when it ends below 4 GiB. A block that ends right
      there leaves the file empty. */
  method WriteThenRead(v: Volume, f: nat, buf: seq<Byte>, offset: nat) returns (n: int, out: seq<Byte>)
    requires v.Valid() && f in v.files
    modifies v`zones, v`zmap, v`files, v`own
    ensures v.Valid() && f in v.files
    ensures n == |buf| ==> (out == buf <==> offset + |buf| < U32)
    ensures n == |buf| && offset + |buf| == U32 ==> v.files[f].size == 0 && out == []
  {
    hide Ok, Written, FileBytes;
    SizeFits(v, f);
    n := Write(v, f, buf, offset);
    out := Read(v, f, |buf|, offset);
    if n == |buf| {
      WrittenBack(v.g, old(v.zones), old(v.files), v.zones, v.files, f, offset, buf[..n], |out|);
    }
  }

  /** Of the block sizes that mount accepts, a file has a place for the last block below 4 GiB exactly in
      blocks of 4096 bytes. */
  lemma WrapReached(g: Geo)
    requires g.bs in {1024, 2048, 4096} && g.w in {2, 4}
    ensures BlockSite((U32 - 1) / g.bs, PtrsPerBlock(g)).Some? <==> g.bs == 4096
  {
  }
}
