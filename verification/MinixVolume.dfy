/** A mounted Minix volume: allocation of zones, the inode table, and the zone of a block of a file. */
module MinixVolume {
  import opened Basics
  import opened Modular
  import opened MinixBlocks
  import opened MinixBits
  import opened MinixTree
  import opened MinixLayout

  // --- What a reader sees ---

  function Blanks(n: nat): (s: seq<Byte>)
    ensures |s| == n && Blank(s)
  {
    seq(n, _ => 0)
  }

  /** Seven zones in the inode, then one zone of pointers, then one zone of pointers to zones of pointers. */
  function BlockSite(blk: nat, ppb: nat): Option<Site>
  {
    if blk < 7 then Some(Slot(blk))
    else if blk - 7 < ppb then Some(Single(blk - 7))
    else if ppb > 0 && blk - 7 - ppb < ppb * ppb then Some(Second((blk - 7 - ppb) / ppb, (blk - 7 - ppb) % ppb))
    else None
  }

  function PtrsPerBlock(g: Geo): nat
  {
    if g.w == 2 then g.bs / 2 else g.bs / 4
  }

  /** The zone of a block of a file; zero is a hole. */
  function BlockZone(g: Geo, zones: Zones, nd: Inode, blk: nat): nat
  {
    match BlockSite(blk, PtrsPerBlock(g)) case None => 0 case Some(s) => ZoneAt(zones, g.w, nd, s)
  }

  /** The bytes of a block of a file; a hole reads as zeros. */
  function BlockData(g: Geo, zones: Zones, nd: Inode, blk: nat): seq<Byte>
  {
    var z := BlockZone(g, zones, nd, blk);
    if z == 0 || z >= |zones| then Blanks(g.bs) else zones[z]
  }

  lemma RowColumn(i: nat, j: nat, n: nat)
    requires j < n
    ensures (i * n + j) / n == i && (i * n + j) % n == j && (i < n ==> i * n + j < n * n)
  {
    DivModUnique(i * n + j, i, j, n);
    if i < n { RowBelow(i, n); }
  }

  lemma RowBelow(i: nat, n: nat)
    requires i < n
    ensures i * n + n <= n * n
  {
    TimesOrder(n, i + 1, n);
    assert n * (i + 1) == i * n + n;
  }

  /** The first seven blocks are in the inode, the next in the zone of slot 7, and block j of row i
      after them is entry j of the zone that entry i of slot 8's zone names. */
  lemma BlockPlaces(g: Geo, zones: Zones, nd: Inode, i: nat, j: nat)
    requires |nd.zone| >= 9
    ensures j < 7 ==> BlockZone(g, zones, nd, j) == nd.zone[j]
    ensures j < PtrsPerBlock(g) ==> BlockZone(g, zones, nd, 7 + j) == Deref(zones, g.w, nd.zone[7], j)
    ensures var n := PtrsPerBlock(g);
            i < n && j < n ==> BlockZone(g, zones, nd, 7 + n + i * n + j) ==
                               Deref(zones, g.w, Deref(zones, g.w, nd.zone[8], i), j)
  {
    hide Deref;
    var n := PtrsPerBlock(g);
    if i < n && j < n {
      RowColumn(i, j, n);
      hide PtrsPerBlock;
      assert BlockSite(7 + n + i * n + j, n) == Some(Second(i, j));
    }
  }

  lemma BlockSiteData(blk: nat, ppb: nat)
    ensures BlockSite(blk, ppb).Some? ==> !PointerSite(BlockSite(blk, ppb).value)
  {
  }

  lemma BlockSiteInjective(blk: nat, other: nat, ppb: nat)
    requires blk != other && BlockSite(blk, ppb).Some?
    ensures BlockSite(blk, ppb) != BlockSite(other, ppb)
  {
    if blk >= 7 + ppb && other >= 7 + ppb && ppb > 0 {
      var a, b := blk - 7 - ppb, other - 7 - ppb;
      if a / ppb == b / ppb { SameQuotient(a, b, ppb); }
    }
  }

  ghost predicate SameSeen(g: Geo, zones: Zones, files: Inodes, zones': Zones, files': Inodes)
  {
    && files'.Keys == files.Keys
    && forall ino, blk ::
         ino in files && ino in files' ==>
           BlockData(g, zones', files'[ino], blk) == BlockData(g, zones, files[ino], blk)
  }

  // --- The state of a volume ---

  /** Every zone with a place is in the data area and marked. */
  ghost predicate Marked(g: Geo, zmap: seq<Byte>, own: Owners)
  {
    forall z :: z in own ==> g.first <= z < g.nzones && Test(zmap, z - g.first + 1)
  }

  /** The zone map on disk is the one in memory. */
  ghost predicate Flushed(g: Geo, zones: Zones, zmap: seq<Byte>)
    requires Sized(zones, g) && g.Table() <= g.nzones
  {
    && |zmap| == g.zmapBlocks * g.bs
    && forall k :: 0 <= k < g.zmapBlocks ==> zones[2 + g.imapBlocks + k] == MapBlock(g, zmap, k)
  }

  function MapBlock(g: Geo, zmap: seq<Byte>, k: nat): seq<Byte>
  {
    if k * g.bs + g.bs <= |zmap| then zmap[k * g.bs..k * g.bs + g.bs] else []
  }

  lemma MapBlockSize(g: Geo, zmap: seq<Byte>, k: nat)
    requires |zmap| == g.zmapBlocks * g.bs && k < g.zmapBlocks
    ensures |MapBlock(g, zmap, k)| == g.bs
  {
    BlockEnd(k, g.zmapBlocks, g.bs);
  }

  ghost predicate TreeOk(g: Geo, zones: Zones, zmap: seq<Byte>, files: Inodes, own: Owners)
  {
    && Fits(g) && Sized(zones, g) && Sound(zones, g.w, files, own)
    && Marked(g, zmap, own) && Flushed(g, zones, zmap)
  }

  ghost predicate Ok(g: Geo, zones: Zones, zmap: seq<Byte>, files: Inodes, own: Owners)
  {
    TreeOk(g, zones, zmap, files, own) && Synced(zones, g, files)
  }

  /** Zones outside the zone map are as they were, but for one. */
  ghost predicate SameBut(g: Geo, zones: Zones, zones': Zones, but: nat)
  {
    && |zones'| == |zones|
    && forall z :: 0 <= z < |zones| && z != but && (z < 2 + g.imapBlocks || g.Table() <= z) ==> zones'[z] == zones[z]
  }

  lemma BlockEnd(k: nat, m: nat, bs: nat)
    requires k < m
    ensures k * bs + bs <= m * bs
  {
    TimesOrder(bs, k + 1, m);
  }

  /** A zone nobody has is marked and blanked; no place and no file notices. */
  lemma AllocSame(g: Geo, zones: Zones, zmap: seq<Byte>, files: Inodes, own: Owners, zones': Zones, zmap': seq<Byte>,
                  z: nat)
    requires Ok(g, zones, zmap, files, own) && Sized(zones', g) && SameBut(g, zones, zones', z)
    requires g.first <= z < g.nzones && z !in own && Flushed(g, zones', zmap') && Marked(g, zmap', own)
    ensures Ok(g, zones', zmap', files, own) && SameSeen(g, zones, files, zones', files)
  {
    SyncedFrame(zones, zones', g, files);
    SameTreeSound(zones, zones', g.w, files, own);
    forall ino, blk | ino in files
      ensures BlockData(g, zones', files[ino], blk) == BlockData(g, zones, files[ino], blk)
    {
      OffTree(g, zones, zones', files, own, ino, blk);
    }
  }

  /** A block reads the same if its zone and all pointer zones are the same. */
  lemma OffTree(g: Geo, zones: Zones, zones': Zones, files: Inodes, own: Owners, ino: nat, blk: nat)
    requires Sound(zones, g.w, files, own) && |zones'| == |zones| && ino in files
    requires forall y :: y in own && y < |zones| ==> zones'[y] == zones[y]
    ensures BlockData(g, zones', files[ino], blk) == BlockData(g, zones, files[ino], blk)
  {
    match BlockSite(blk, PtrsPerBlock(g))
    case None =>
    case Some(s) => SameTree(zones, zones', g.w, files, own, ino, s);
  }

  /** A blank zone on an empty site changes nothing that is read. */
  lemma AddSeen(g: Geo, zones: Zones, files: Inodes, own: Owners, zones': Zones, files': Inodes, f: nat, s0: Site,
                z: nat)
    requires Sized(zones, g) && Sized(zones', g) && Sound(zones, g.w, files, own) && f in files
    requires AddsSite(zones, files, zones', files', g.w, f, s0, z) && ZoneAt(zones, g.w, files[f], s0) == 0
    requires 0 < z < |zones'| && Blank(zones'[z])
    requires forall y :: y in own && y < |zones| && !PointerSite(own[y].site) ==> zones'[y] == zones[y]
    ensures SameSeen(g, zones, files, zones', files')
  {
    forall ino, blk | ino in files
      ensures BlockData(g, zones', files'[ino], blk) == BlockData(g, zones, files[ino], blk)
    {
      match BlockSite(blk, PtrsPerBlock(g))
      case None =>
      case Some(s) =>
        BlockSiteData(blk, PtrsPerBlock(g));
        assert ZoneAt(zones', g.w, files'[ino], s) == if ino == f && s == s0 then z
            else ZoneAt(zones, g.w, files[ino], s);
        if ino == f && s == s0 { assert zones'[z] == Blanks(g.bs); }
    }
  }

  lemma SeenTrans(g: Geo, z0: Zones, f0: Inodes, z1: Zones, f1: Inodes, z2: Zones, f2: Inodes)
    requires SameSeen(g, z0, f0, z1, f1) && SameSeen(g, z1, f1, z2, f2)
    ensures SameSeen(g, z0, f0, z2, f2)
  {
    forall ino, blk | ino in f0
      ensures BlockData(g, z2, f2[ino], blk) == BlockData(g, z0, f0[ino], blk)
    {
      assert BlockData(g, z1, f1[ino], blk) == BlockData(g, z0, f0[ino], blk);
    }
  }

  /** A clear bit becomes a zone's; the zones already marked keep their marks. */
  lemma MarkOne(g: Geo, zmap: seq<Byte>, own: Owners, bit: nat)
    requires Marked(g, zmap, own) && bit / 8 < |zmap| && !Test(zmap, bit) && bit > 0
    ensures Marked(g, Put(zmap, bit, true), own) && bit + g.first - 1 !in own
  {
    forall z | z in own ensures Test(Put(zmap, bit, true), z - g.first + 1) {
      PutTest(zmap, bit, true, z - g.first + 1);
    }
  }

  lemma MarkedAdd(g: Geo, zmap: seq<Byte>, own: Owners, z: nat, at: Place)
    requires Marked(g, zmap, own) && g.first <= z < g.nzones && Test(zmap, z - g.first + 1)
    ensures Marked(g, zmap, own[z := at])
  {
  }

  /** A blank zone takes an empty site, by whatever change of inodes and pointer zones. */
  lemma SiteDone(g: Geo, zones: Zones, zmap: seq<Byte>, files: Inodes, own: Owners, f: nat, s0: Site, z: nat,
                 zones': Zones, files': Inodes)
    requires TreeOk(g, zones, zmap, files, own) && f in files && ZoneAt(zones, g.w, files[f], s0) == 0
    requires AddsSite(zones, files, zones', files', g.w, f, s0, z) && Sized(zones', g) && Flushed(g, zones', zmap)
    requires g.first <= z < g.nzones && z !in own && Blank(zones'[z]) && Test(zmap, z - g.first + 1)
    requires forall y :: y in own && y < |zones| && !PointerSite(own[y].site) ==> zones'[y] == zones[y]
    ensures TreeOk(g, zones', zmap, files', own[z := Place(f, s0)]) && SameSeen(g, zones, files, zones', files')
  {
    hide Sound, AddsSite, SameSeen, Flushed, Test, ZoneAt, Blank, Marked;
    AddSound(zones, files, own, zones', files', g.w, f, s0, z);
    AddSeen(g, zones, files, own, zones', files', f, s0, z);
    MarkedAdd(g, zmap, own, z, Place(f, s0));
  }

  /** The inode table is outside the tree of zones. */
  lemma TableWrite(g: Geo, zones: Zones, zmap: seq<Byte>, files: Inodes, own: Owners, ib: nat, blk: seq<Byte>)
    requires TreeOk(g, zones, zmap, files, own) && g.Table() <= ib < g.first && |blk| == g.bs
    ensures TreeOk(g, zones[ib := blk], zmap, files, own) && SameSeen(g, zones, files, zones[ib := blk], files)
  {
    hide Test, ZoneAt, Flushed;
    var zones' := zones[ib := blk];
    FlushedFrame(g, zones, zmap, ib, blk);
    SameTreeSound(zones, zones', g.w, files, own);
    forall ino, b | ino in files ensures BlockData(g, zones', files[ino], b) == BlockData(g, zones, files[ino], b) {
      OffTree(g, zones, zones', files, own, ino, b);
    }
  }

  lemma FlushedFrame(g: Geo, zones: Zones, zmap: seq<Byte>, at: nat, blk: seq<Byte>)
    requires Sized(zones, g) && g.Table() <= g.nzones && Flushed(g, zones, zmap)
    requires g.Table() <= at < |zones| && |blk| == g.bs
    ensures Sized(zones[at := blk], g) && Flushed(g, zones[at := blk], zmap)
  {
    hide MapBlock;
  }

  /** A blank zone has been put into an entry of a pointer zone. */
  lemma EntryDone(g: Geo, zones: Zones, zmap: seq<Byte>, files: Inodes, own: Owners, f: nat, sb: Site, i: nat, b: nat,
                  z: nat)
    requires Ok(g, zones, zmap, files, own) && f in files && PointerSite(sb)
    requires b == ZoneAt(zones, g.w, files[f], sb) != 0
    requires i < PtrsPerBlock(g) && ZoneAt(zones, g.w, files[f], Child(sb, i)) == 0
    requires g.first <= z < g.nzones && z !in own && Blank(zones[z]) && Test(zmap, z - g.first + 1)
    ensures b < |zones| && g.w * i + g.w <= |zones[b]|
    ensures var zones' := zones[b := PutPtr(zones[b], g.w, i, z)];
      && Ok(g, zones', zmap, files, own[z := Place(f, Child(sb, i))])
      && SameSeen(g, zones, files, zones', files)
      && ZoneAt(zones', g.w, files[f], Child(sb, i)) == z
  {
    hide Test, Blank, PutPtr, Ptr, Synced, Flushed, SameSeen, Limit;
    assert own[b] == Place(f, sb) && g.first <= b < g.nzones;
    InBlock(g, i);
    var zones' := zones[b := PutPtr(zones[b], g.w, i, z)];
    PtrAdds(zones, g.w, files, own, f, sb, i, b, z, zones');
    FlushedFrame(g, zones, zmap, b, PutPtr(zones[b], g.w, i, z));
    SyncedFrame(zones, zones', g, files);
    assert ZoneAt(zones', g.w, files[f], Child(sb, i)) == z;
    hide Sound, AddsSite, SameSeen, ZoneAt;
    assert z != b;
    SiteDone(g, zones, zmap, files, own, f, Child(sb, i), z, zones', files);
  }

  lemma InBlock(g: Geo, i: nat)
    requires (g.w == 2 || g.w == 4) && i < PtrsPerBlock(g)
    ensures g.w * i + g.w <= g.bs
  {
  }

  /** A blank zone has been put into a slot of an inode, and the inode stored. */
  lemma SlotDone(g: Geo, zones: Zones, zmap: seq<Byte>, files: Inodes, own: Owners, f: nat, i: nat, z: nat,
                 files': Inodes, ib: nat, blk: seq<Byte>)
    requires Ok(g, zones, zmap, files, own) && f in files && i < 9 && SlotAt(files[f], i) == 0 && |files[f].zone| == 10
    requires g.first <= z < g.nzones && z !in own && Blank(zones[z]) && Test(zmap, z - g.first + 1)
    requires files' == files[f := files[f].(zone := files[f].zone[i := z])]
    requires g.Table() <= ib < g.first && |blk| == g.bs
    requires Sized(zones[ib := blk], g) && Synced(zones[ib := blk], g, files')
    ensures Ok(g, zones[ib := blk], zmap, files', own[z := Place(f, Slot(i))])
    ensures SameSeen(g, zones, files, zones[ib := blk], files')
  {
    hide Test, Blank, Synced, ZoneAt, Flushed, Sound, SameSeen, AddsSite, Marked;
    SlotIs(g, zones, files[f], i);
    SlotAdds(zones, g.w, files, f, i, z);
    SiteDone(g, zones, zmap, files, own, f, Slot(i), z, zones, files');
    TableWrite(g, zones, zmap, files', own[z := Place(f, Slot(i))], ib, blk);
    SeenTrans(g, zones, files, zones, files', zones[ib := blk], files');
  }

  lemma SlotIs(g: Geo, zones: Zones, nd: Inode, i: nat)
    ensures ZoneAt(zones, g.w, nd, Slot(i)) == SlotAt(nd, i)
  {
  }

  /** alloc_zone finds nothing: bit 0 of the zone map is clear, or no bit of it is. */
  ghost predicate NoneFree(g: Geo, zmap: seq<Byte>)
    requires g.first <= g.nzones + 1
  {
    !Test(zmap, 0) || forall k :: 0 <= k < g.nzones - g.first + 1 ==> Test(zmap, k)
  }

  class Volume {
    const g: Geo
    var zones: Zones
    var zmap: seq<Byte>
    var files: Inodes
    ghost var own: Owners

    ghost predicate Valid()
      reads this
    {
      Ok(g, zones, zmap, files, own)
    }

    /** A mounted volume with the inodes that are open, one handle each. */
    constructor (geo: Geo, disk: Zones, bits: seq<Byte>, open: Inodes, ghost places: Owners)
      requires Ok(geo, disk, bits, open, places)
      ensures Valid() && g == geo && zones == disk && zmap == bits && files == open && own == places
    {
      g, zones, zmap, files, own := geo, disk, bits, open, places;
    }

    /** Write the zone map out, block by block. */
    method FlushZmap()
      requires Fits(g) && Sized(zones, g) && |zmap| == g.zmapBlocks * g.bs
      modifies `zones
      ensures Sized(zones, g) && Flushed(g, zones, zmap) && SameBut(g, old(zones), zones, g.nzones)
    {
      assert g.Table() <= g.nzones;
      hide MapBlock, Fits;
      for k := 0 to g.zmapBlocks
        invariant Sized(zones, g) && SameBut(g, old(zones), zones, g.nzones)
        invariant forall j :: 0 <= j < k ==> zones[2 + g.imapBlocks + j] == MapBlock(g, zmap, j)
      {
        MapBlockSize(g, zmap, k);
        zones := zones[2 + g.imapBlocks + k := MapBlock(g, zmap, k)];
      }
    }

    /** Take the first free zone, mark it, and fill it with zeros; -1 when there is none. */
    method AllocZone() returns (zone: int)
      requires Valid()
      modifies `zones, `zmap
      ensures Valid() && SameSeen(g, old(zones), files, zones, files)
      ensures zone < 0 ==> zones == old(zones) && zmap == old(zmap)
      ensures zone < 0 <==> NoneFree(g, old(zmap))
      ensures zone >= 0 ==> g.first <= zone < g.nzones && zone !in own && Blank(zones[zone])
      ensures zone >= 0 ==> SameBut(g, old(zones), zones, zone) && Test(zmap, zone - g.first + 1)
      ensures zone >= 0 ==> !Test(old(zmap), zone - g.first + 1) && zmap == Put(old(zmap), zone - g.first + 1, true)
    {
      hide Sound, Marked, Synced, SameSeen, Test, Put, Blank, MapBlock;
      SeenSelf(g, zones, files);
      var max := g.nzones - g.first + 1;
      var bit := FindZero(zmap, max);
      if bit <= 0 { return -1; }
      zone := bit + g.first - 1;
      MarkOne(g, zmap, own, bit);
      PutTest(zmap, bit, true, bit);
      zmap := Put(zmap, bit, true);
      FlushZmap();
      ghost var mid := zones;
      zones := zones[zone := Blanks(g.bs)];
      assert Flushed(g, zones, zmap);
      AllocSame(g, old(zones), old(zmap), files, own, zones, zmap, zone);
    }

    /** Free a zone that has no place any more. */
    method FreeZone(zone: nat)
      requires Valid() && zone !in own
      modifies `zones, `zmap
      ensures Valid() && SameSeen(g, old(zones), files, zones, files)
      ensures zmap == if g.first <= zone < g.nzones then Put(old(zmap), zone - g.first + 1, false) else old(zmap)
      ensures SameBut(g, old(zones), zones, g.nzones)
    {
      hide Sound, Marked, Synced, SameSeen, Test, Put, Blank, MapBlock;
      SeenSelf(g, zones, files);
      if zone < g.first || zone >= g.nzones { return; }
      var bit := zone - g.first + 1;
      UnmarkOne(g, zmap, own, zone);
      zmap := Put(zmap, bit, false);
      FlushZmap();
      AllocSame(g, old(zones), old(zmap), files, own, zones, zmap, zone);
    }

    /** Read an inode of the table. */
    method LoadInode(ino: nat) returns (nd: Inode)
      requires Valid() && 0 < ino <= g.ninodes
      ensures nd == OnDisk(zones, g, ino)
      ensures ino in files ==> nd == files[ino]
    {
      InodeRange(g, ino);
      var at := g.InodeOffset(ino);
      nd := Decode(g, zones[g.InodeBlock(ino)][at..at + g.ISize()]);
    }

    /** Write an open inode back to the table, beside the others of its block. */
    method StoreInode(f: nat, nd: Inode)
      requires Valid() && f in files && Shaped(g, nd)
      modifies `zones, `files
      ensures files == old(files)[f := nd] && 0 < f <= g.ninodes && g.Table() <= g.InodeBlock(f) < g.first
      ensures |zones| == |old(zones)| && zones == old(zones)[g.InodeBlock(f) := zones[g.InodeBlock(f)]]
      ensures |zones[g.InodeBlock(f)]| == g.bs && Sized(zones, g) && Synced(zones, g, files)
      ensures Fits(g) && Sized(old(zones), g) && OthersRaw(old(zones), zones, g, f)
    {
      hide Sound, Marked, Flushed, Shaped, Decode;
      InodeRange(g, f);
      var ib, at := g.InodeBlock(f), g.InodeOffset(f);
      var raw := PackInode(g, zones[ib][at..at + g.ISize()], nd);
      ghost var before := zones;
      zones := zones[ib := Splice(zones[ib], at, raw)];
      StoreOne(before, g, files, f, nd, raw, zones);
      files := files[f := nd];
    }

    /** The zone in a slot of an inode, allocated and recorded if there is none; -1 if that fails. */
    method FillSlot(f: nat, i: nat) returns (z: int)
      requires Valid() && f in files && i < 9
      modifies `zones, `zmap, `files, `own
      ensures Valid() && f in files && SameSeen(g, old(zones), old(files), zones, files)
      ensures z < 0 ==> files == old(files) && NoneFree(g, zmap)
      ensures z >= 0 ==> z > 0 && z == SlotAt(files[f], i) && |old(files)[f].zone| == 10
      ensures z >= 0 ==> files == old(files)[f := old(files)[f].(zone := old(files)[f].zone[i := z])]
    {
      hide Sound, Marked, Flushed, Synced, SameSeen, Blank, Test, Put, BlockData, Limit, NoneFree;
      InodeShape(g, zones, files, f);
      SeenSelf(g, zones, files);
      z := files[f].zone[i];
      if z != 0 {
        assert files[f].(zone := files[f].zone[i := z]) == files[f];
        return;
      }
      z := AllocZone();
      if z < 0 { return; }
      ghost var zs, fs := zones, files;
      var nd := files[f].(zone := files[f].zone[i := z]);
      StoreInode(f, nd);
      ghost var ib := g.InodeBlock(f);
      SlotDone(g, zs, zmap, fs, own, f, i, z, files, ib, zones[ib]);
      SeenTrans(g, old(zones), old(files), zs, fs, zones, files);
      own := own[z := Place(f, Slot(i))];
    }

    /** The zone in an entry of a pointer zone, allocated and recorded if there is none; -1 if that fails. */
    method FillEntry(f: nat, ghost sb: Site, b: nat, i: nat) returns (z: int)
      requires Valid() && f in files && PointerSite(sb) && b == ZoneAt(zones, g.w, files[f], sb) != 0
      requires i < PtrsPerBlock(g)
      modifies `zones, `zmap, `own
      ensures Valid() && SameSeen(g, old(zones), files, zones, files)
      ensures z >= 0 ==> z > 0 && z == ZoneAt(zones, g.w, files[f], Child(sb, i))
      ensures z < 0 ==> NoneFree(g, zmap)
    {
      hide Sound, Marked, Flushed, Synced, SameSeen, Blank, Test, Put, BlockData, Limit, NoneFree, Ptr, ZoneAt, PutPtr;
      SeenSelf(g, zones, files);
      EntryIs(g, zones, zmap, files, own, f, sb, b, i);
      z := Ptr(zones[b], g.w, i);
      if z != 0 { return; }
      z := AllocZone();
      if z < 0 { return; }
      ghost var zs := zones;
      AllocKeeps(g, old(zones), old(zmap), files, own, zones, z, f, sb, i);
      EntryDone(g, zones, zmap, files, own, f, sb, i, b, z);
      zones := zones[b := PutPtr(zones[b], g.w, i, z)];
      SeenTrans(g, old(zones), files, zs, files, zones, files);
      own := own[z := Place(f, Child(sb, i))];
    }

    /** An entry of the pointer zone at a site, zero if there is no such zone. */
    method FindEntry(f: nat, ghost sb: Site, b: nat, i: nat) returns (z: nat)
      requires Valid() && f in files && PointerSite(sb) && b == ZoneAt(zones, g.w, files[f], sb)
      ensures z == ZoneAt(zones, g.w, files[f], Child(sb, i))
    {
      hide Sound, Marked, Flushed, Synced, Ptr;
      if b == 0 { return 0; }
      EntryIs(g, zones, zmap, files, own, f, sb, b, i);
      z := Ptr(zones[b], g.w, i);
    }

    /** Follow the pointers to the zone of a block, without allocating; -1 for a hole. */
    method FindZone(f: nat, blk: nat) returns (z: int)
      requires Valid() && f in files
      ensures z == if BlockZone(g, zones, files[f], blk) == 0 then -1 else BlockZone(g, zones, files[f], blk)
    {
      hide Ok, Limit, ZoneAt;
      OpenShape(g, zones, zmap, files, own, f);
      var ppb, nd := PtrsPerBlock(g), files[f];
      SlotIs(g, zones, nd, blk);
      SlotIs(g, zones, nd, 7);
      SlotIs(g, zones, nd, 8);
      if blk < 7 {
        z := nd.zone[blk];
      } else if blk - 7 < ppb {
        z := FindEntry(f, Slot(7), nd.zone[7], blk - 7);
      } else if blk - 7 - ppb < ppb * ppb {
        QuotientBelow(blk - 7 - ppb, ppb);
        var i1, i2 := (blk - 7 - ppb) / ppb, (blk - 7 - ppb) % ppb;
        var z1 := FindEntry(f, Slot(8), nd.zone[8], i1);
        z := FindEntry(f, Double(i1), z1, i2);
      } else {
        return -1;
      }
      if z == 0 { z := -1; }
    }

    /** An entry of the zone of pointers in a slot of the inode, both made if missing. */
    method FillBelow(f: nat, slot: nat, i: nat) returns (z: int)
      requires Valid() && f in files && (slot == 7 || slot == 8) && i < PtrsPerBlock(g)
      modifies `zones, `zmap, `files, `own
      ensures Valid() && f in files && SameSeen(g, old(zones), old(files), zones, files)
      ensures files == old(files)[f := old(files)[f].(zone := files[f].zone)]
      ensures z >= 0 ==> z > 0 && z == ZoneAt(zones, g.w, files[f], Child(Slot(slot), i))
      ensures z < 0 ==> NoneFree(g, zmap)
    {
      hide Ok, SameSeen, BlockData, ZoneAt, NoneFree;
      SeenSelf(g, zones, files);
      var b := FillSlot(f, slot);
      if b < 0 { return -1; }
      SlotIs(g, zones, files[f], slot);
      ghost var zs := zones;
      z := FillEntry(f, Slot(slot), b, i);
      SeenTrans(g, old(zones), old(files), zs, files, zones, files);
    }

    /** The zone of a block, with every zone on the way to it allocated if missing; -1 if that fails. */
    method MakeZone(f: nat, blk: nat) returns (z: int)
      requires Valid() && f in files
      modifies `zones, `zmap, `files, `own
      ensures Valid() && f in files && SameSeen(g, old(zones), old(files), zones, files)
      ensures files == old(files)[f := old(files)[f].(zone := files[f].zone)]
      ensures z >= 0 ==> z > 0 && z == BlockZone(g, zones, files[f], blk)
      ensures z < 0 ==> NoneFree(g, zmap) || BlockSite(blk, PtrsPerBlock(g)).None?
      ensures BlockSite(blk, PtrsPerBlock(g)).None? ==> z < 0
    {
      hide Ok, SameSeen, BlockData, NoneFree;
      SeenSelf(g, zones, files);
      var ppb := PtrsPerBlock(g);
      if blk < 7 {
        z := FillSlot(f, blk);
      } else if blk - 7 < ppb {
        z := FillBelow(f, 7, blk - 7);
      } else if blk - 7 - ppb < ppb * ppb {
        var i1, i2 := (blk - 7 - ppb) / ppb, (blk - 7 - ppb) % ppb;
        QuotientBelow(blk - 7 - ppb, ppb);
        var z1 := FillBelow(f, 8, i1);
        if z1 < 0 { return -1; }
        ghost var zs := zones;
        z := FillEntry(f, Double(i1), z1, i2);
        SeenTrans(g, old(zones), old(files), zs, files, zones, files);
      } else {
        return -1;
      }
    }

    method GetZone(f: nat, blk: nat, create: bool) returns (z: int)
      requires Valid() && f in files
      modifies `zones, `zmap, `files, `own
      ensures Valid() && f in files && SameSeen(g, old(zones), old(files), zones, files)
      ensures files == old(files)[f := old(files)[f].(zone := files[f].zone)]
      ensures z >= 0 ==> z > 0 && z == BlockZone(g, zones, files[f], blk)
      ensures !create ==> zones == old(zones) && zmap == old(zmap) && files == old(files) && own == old(own)
      ensures !create && z < 0 ==> BlockZone(g, zones, files[f], blk) == 0
      ensures create && z < 0 ==> NoneFree(g, zmap) || BlockSite(blk, PtrsPerBlock(g)).None?
      ensures create && BlockSite(blk, PtrsPerBlock(g)).None? ==> z < 0
    {
      hide Ok, SameSeen, BlockData, BlockZone, NoneFree, BlockSite, PtrsPerBlock;
      SeenSelf(g, zones, files);
      if create { z := MakeZone(f, blk); } else { z := FindZone(f, blk); }
    }
  }

  lemma QuotientBelow(x: nat, n: nat)
    requires n > 0 && x < n * n
    ensures x / n < n && x % n < n
  {
    if x / n >= n { TimesOrder(n, n, x / n); }
  }

  lemma OpenShape(g: Geo, zones: Zones, zmap: seq<Byte>, files: Inodes, own: Owners, f: nat)
    requires Ok(g, zones, zmap, files, own) && f in files
    ensures Shaped(g, files[f])
  {
  }

  lemma InodeShape(g: Geo, zones: Zones, files: Inodes, f: nat)
    requires Fits(g) && Sized(zones, g) && Synced(zones, g, files) && f in files
    ensures Shaped(g, files[f])
  {
  }

  /** A pointer zone is inside the volume, and its entry is the zone of the child site. */
  lemma EntryIs(g: Geo, zones: Zones, zmap: seq<Byte>, files: Inodes, own: Owners, f: nat, sb: Site, b: nat, i: nat)
    requires Ok(g, zones, zmap, files, own) && f in files && PointerSite(sb)
    requires b == ZoneAt(zones, g.w, files[f], sb) != 0
    ensures g.first <= b < |zones| && ZoneAt(zones, g.w, files[f], Child(sb, i)) == Ptr(zones[b], g.w, i)
  {
    assert own[b] == Place(f, sb);
  }

  /** Allocating a zone moves no zone of any file. */
  lemma AllocKeeps(g: Geo, zones: Zones, zmap: seq<Byte>, files: Inodes, own: Owners, zones': Zones, z: nat, f: nat,
                   sb: Site, i: nat)
    requires Ok(g, zones, zmap, files, own) && f in files && PointerSite(sb) && z !in own
    requires SameBut(g, zones, zones', z)
    ensures ZoneAt(zones', g.w, files[f], sb) == ZoneAt(zones, g.w, files[f], sb)
    ensures ZoneAt(zones', g.w, files[f], Child(sb, i)) == ZoneAt(zones, g.w, files[f], Child(sb, i))
  {
    SameTree(zones, zones', g.w, files, own, f, sb);
    SameTree(zones, zones', g.w, files, own, f, Child(sb, i));
  }

  lemma UnmarkOne(g: Geo, zmap: seq<Byte>, own: Owners, zone: nat)
    requires Marked(g, zmap, own) && zone !in own && g.first <= zone < g.nzones && g.nzones - g.first + 1 <= 8 * |zmap|
    ensures Marked(g, Put(zmap, zone - g.first + 1, false), own)
  {
    forall z | z in own ensures Test(Put(zmap, zone - g.first + 1, false), z - g.first + 1) {
      PutTest(zmap, zone - g.first + 1, false, z - g.first + 1);
    }
  }

  lemma SeenSelf(g: Geo, zones: Zones, files: Inodes)
    ensures SameSeen(g, zones, files, zones, files)
  {
  }
}
