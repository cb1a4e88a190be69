/** The on-disk layout of a Minix volume: geometry, and inodes as bytes of the inode table. */
module MinixLayout {
  import opened Basics
  import opened MinixBlocks
  import opened MinixTree

  /** Version 1 has 16-bit zone numbers and version 2 has 32-bit ones; w is their width in bytes. */
  datatype Geo = Geo(w: nat, bs: nat, imapBlocks: nat, zmapBlocks: nat, first: nat, nzones: nat, ninodes: nat)
  {
    function ISize(): nat { if w == 2 then 32 else 64 }
    function PerBlock(): nat { if w == 2 then bs / 32 else bs / 64 }
    function Table(): nat { 2 + imapBlocks + zmapBlocks }
    function InodeBlock(ino: nat): nat requires PerBlock() > 0 && ino > 0 { Table() + (ino - 1) / PerBlock() }
    function InodeOffset(ino: nat): nat requires PerBlock() > 0 && ino > 0 { (ino - 1) % PerBlock() * ISize() }
    function SizeAt(): nat { 2 * w }
    function ZonesAt(): nat { if w == 2 then 14 else 24 }
    function Slots(): nat { if w == 2 then 9 else 10 }
  }

  /** Maps, inode table and data follow one another, and the table holds every inode. */
  ghost predicate Fits(g: Geo)
  {
    && (g.w == 2 || g.w == 4) && g.PerBlock() > 0
    && g.Table() <= g.first < g.nzones <= Limit(g.w)
    && g.nzones - g.first + 1 <= 8 * (g.zmapBlocks * g.bs)
    && forall ino :: 0 < ino <= g.ninodes ==> g.InodeBlock(ino) < g.first
  }

  lemma WidthLimit(w: nat)
    requires w == 2 || w == 4
    ensures Limit(w) == if w == 2 then 0x1_0000 else 0x1_0000_0000
  {
    assert Limit(1) == 256 && Limit(2) == 0x1_0000 && Limit(3) == 0x100_0000 && Limit(4) == 0x1_0000_0000;
  }

  // --- One inode ---

  ghost predicate Shaped(g: Geo, nd: Inode)
  {
    && nd.mode < Limit(2) && nd.size < Limit(4) && |nd.zone| == 10
    && (forall i :: 0 <= i < 10 ==> nd.zone[i] < Limit(g.w))
    && (g.w == 2 ==> nd.zone[9] == 0)
  }

  /** The zone numbers of an inode from their bytes; version 1 has one fewer. */
  function ZoneList(g: Geo, area: seq<Byte>): (zs: seq<nat>)
    ensures |zs| == 10
  {
    seq(10, i requires 0 <= i < 10 => if i < g.Slots() then Ptr(area, g.w, i) else 0)
  }

  function Decode(g: Geo, raw: seq<Byte>): Inode
    requires (g.w == 2 || g.w == 4) && |raw| == g.ISize()
  {
    Inode(Le(raw[..2]), Le(raw[g.SizeAt()..g.SizeAt() + 4]),
          ZoneList(g, raw[g.ZonesAt()..g.ZonesAt() + g.w * g.Slots()]))
  }

  lemma Within(s: seq<Byte>, lo: nat, hi: nat, i: nat, j: nat)
    requires i <= j && lo + j <= hi <= |s|
    ensures s[lo..hi][i..j] == s[lo + i..lo + j]
  {
    assert forall k :: 0 <= k < j - i ==> s[lo..hi][i..j][k] == s[lo + i..lo + j][k];
  }

  /** Mode, size and zones stand at bytes 0, 4 and 14 of the 32 of a version 1 inode, and at 0, 8
      and 24 of the 64 of a version 2 one. */
  lemma InodeBytes(g: Geo, raw: seq<Byte>)
    requires (g.w == 2 || g.w == 4) && |raw| == g.ISize()
    ensures Decode(g, raw).mode == Le(raw[0..2])
    ensures g.w == 2 ==> |raw| == 32 && Decode(g, raw).size == Le(raw[4..8])
    ensures g.w == 2 ==> forall i :: 0 <= i < 9 ==> Decode(g, raw).zone[i] == Le(raw[14 + 2 * i..16 + 2 * i])
    ensures g.w == 4 ==> |raw| == 64 && Decode(g, raw).size == Le(raw[8..12])
    ensures g.w == 4 ==> forall i :: 0 <= i < 10 ==> Decode(g, raw).zone[i] == Le(raw[24 + 4 * i..28 + 4 * i])
  {
    hide Le;
    if g.w == 2 {
      forall i | 0 <= i < 9 ensures Decode(g, raw).zone[i] == Le(raw[14 + 2 * i..16 + 2 * i]) {
        Within(raw, 14, 32, 2 * i, 2 * i + 2);
      }
    } else {
      forall i | 0 <= i < 10 ensures Decode(g, raw).zone[i] == Le(raw[24 + 4 * i..28 + 4 * i]) {
        Within(raw, 24, 64, 4 * i, 4 * i + 4);
      }
    }
  }

  ghost predicate Holds(g: Geo, area: seq<Byte>, zone: seq<nat>, n: nat)
    requires |zone| == 10 && n <= 10
  {
    |area| == g.w * g.Slots() && forall j :: 0 <= j < n ==> Ptr(area, g.w, j) == zone[j]
  }

  /** Write the zone numbers one after another. */
  method PackZones(g: Geo, area0: seq<Byte>, zone: seq<nat>) returns (area: seq<Byte>)
    requires (g.w == 2 || g.w == 4) && |area0| == g.w * g.Slots() && |zone| == 10
    requires forall i :: 0 <= i < 10 ==> zone[i] < Limit(g.w)
    ensures Holds(g, area, zone, g.Slots())
  {
    hide Ptr, PutPtr, Limit;
    area := area0;
    for i := 0 to g.Slots()
      invariant Holds(g, area, zone, i)
    {
      Apart(g.w, i, g.Slots());
      forall j | 0 <= j <= i ensures Ptr(PutPtr(area, g.w, i, zone[i]), g.w, j) == zone[j] {
        PtrPut(area, g.w, i, zone[i], j);
      }
      area := PutPtr(area, g.w, i, zone[i]);
    }
  }

  /** The bytes of an inode with new mode, size and zones, everything else as it was. */
  method PackInode(g: Geo, raw0: seq<Byte>, nd: Inode) returns (raw: seq<Byte>)
    requires (g.w == 2 || g.w == 4) && |raw0| == g.ISize() && Shaped(g, nd)
    ensures |raw| == g.ISize() && Decode(g, raw) == nd
    ensures forall i :: 2 <= i < g.SizeAt() || g.SizeAt() + 4 <= i < g.ZonesAt() ==> raw[i] == raw0[i]
  {
    hide Le, ToLe, Limit, Ptr;
    var area := PackZones(g, raw0[g.ZonesAt()..g.ZonesAt() + g.w * g.Slots()], nd.zone);
    var a := Splice(raw0, 0, ToLe(nd.mode, 2));
    var b := Splice(a, g.SizeAt(), ToLe(nd.size, 4));
    raw := Splice(b, g.ZonesAt(), area);
    LeToLe(nd.mode, 2);
    LeToLe(nd.size, 4);
    assert raw[0..2] == b[0..2] == a[0..2] == ToLe(nd.mode, 2);
    assert raw[g.SizeAt()..g.SizeAt() + 4] == b[g.SizeAt()..g.SizeAt() + 4];
    assert ZoneList(g, area) == nd.zone;
  }

  // --- The inode table ---

  ghost predicate Sized(zones: Zones, g: Geo)
  {
    |zones| == g.nzones && forall z :: 0 <= z < |zones| ==> |zones[z]| == g.bs
  }

  lemma InodeRange(g: Geo, ino: nat)
    requires Fits(g) && 0 < ino <= g.ninodes
    ensures g.Table() <= g.InodeBlock(ino) < g.first && g.InodeOffset(ino) + g.ISize() <= g.bs
  {
    OffsetFits(g, ino);
    hide Geo.InodeOffset, Geo.ISize, Limit;
  }

  lemma OffsetFits(g: Geo, ino: nat)
    requires (g.w == 2 || g.w == 4) && g.PerBlock() > 0 && ino > 0
    ensures g.InodeOffset(ino) + g.ISize() <= g.bs
  {
    if g.w == 2 { SlotFits(ino - 1, g.bs, 32); } else { SlotFits(ino - 1, g.bs, 64); }
  }

  lemma SlotFits(x: nat, size: nat, each: nat)
    requires each > 0 && size / each > 0
    ensures x % (size / each) * each + each <= size
  {
    var n := size / each;
    ModBelow(x, n);
    TimesOrder(each, x % n + 1, n);
    assert each * (x % n + 1) == x % n * each + each;
  }

  lemma ModBelow(x: nat, n: nat)
    requires n > 0
    ensures x % n < n
  {
  }

  /** Different inodes have different bytes. */
  lemma InodesApart(g: Geo, ino: nat, other: nat)
    requires Fits(g) && 0 < ino && 0 < other && ino != other && g.InodeBlock(ino) == g.InodeBlock(other)
    ensures g.InodeOffset(ino) + g.ISize() <= g.InodeOffset(other) ||
            g.InodeOffset(other) + g.ISize() <= g.InodeOffset(ino)
  {
    var n := g.PerBlock();
    SameQuotient(ino - 1, other - 1, n);
  }

  lemma SameQuotient(a: nat, b: nat, n: nat)
    requires n > 0 && a / n == b / n && a != b
    ensures a % n != b % n
  {
  }

  /** The bytes of an inode in the table. */
  ghost function Raw(zones: Zones, g: Geo, ino: nat): (raw: seq<Byte>)
    requires Fits(g) && Sized(zones, g) && 0 < ino <= g.ninodes
    ensures |raw| == g.ISize()
  {
    InodeRange(g, ino);
    var at := g.InodeOffset(ino);
    zones[g.InodeBlock(ino)][at..at + g.ISize()]
  }

  ghost function OnDisk(zones: Zones, g: Geo, ino: nat): Inode
    requires Fits(g) && Sized(zones, g) && 0 < ino <= g.ninodes
  {
    Decode(g, Raw(zones, g, ino))
  }

  /** The open inodes are as the table has them. */
  ghost predicate Synced(zones: Zones, g: Geo, files: Inodes)
    requires Fits(g) && Sized(zones, g)
  {
    forall ino :: ino in files ==> 0 < ino <= g.ninodes && Shaped(g, files[ino]) && OnDisk(zones, g, ino) == files[ino]
  }

  /** The table is untouched when its zones are. */
  lemma SyncedFrame(zones: Zones, zones': Zones, g: Geo, files: Inodes)
    requires Fits(g) && Sized(zones, g) && Sized(zones', g) && Synced(zones, g, files)
    requires forall z :: g.Table() <= z < g.first ==> zones'[z] == zones[z]
    ensures Synced(zones', g, files)
  {
    forall ino | ino in files ensures OnDisk(zones', g, ino) == files[ino] {
      InodeRange(g, ino);
      assert OnDisk(zones, g, ino) == files[ino];
    }
  }

  /** Storing one inode leaves the bytes of the others, open or not. */
  lemma StoreOne(zones: Zones, g: Geo, files: Inodes, f: nat, nd: Inode, raw: seq<Byte>, zones': Zones)
    requires Fits(g) && Sized(zones, g) && 0 < f <= g.ninodes && Shaped(g, nd)
    requires forall ino :: ino in files && ino != f ==>
      0 < ino <= g.ninodes && Shaped(g, files[ino]) && OnDisk(zones, g, ino) == files[ino]
    requires |raw| == g.ISize() && Decode(g, raw) == nd && g.InodeBlock(f) < |zones| && g.InodeOffset(f) + |raw| <= g.bs
    requires zones' == zones[g.InodeBlock(f) := Splice(zones[g.InodeBlock(f)], g.InodeOffset(f), raw)]
    ensures Sized(zones', g) && Synced(zones', g, files[f := nd]) && OthersRaw(zones, zones', g, f)
  {
    hide Decode, Shaped;
    forall ino | 0 < ino <= g.ninodes && ino != f ensures Raw(zones', g, ino) == Raw(zones, g, ino) {
      InodeRange(g, ino);
      if g.InodeBlock(ino) == g.InodeBlock(f) { InodesApart(g, f, ino); }
      var at := g.InodeOffset(ino);
      assert zones'[g.InodeBlock(ino)][at..at + g.ISize()] == zones[g.InodeBlock(ino)][at..at + g.ISize()];
    }
    forall ino | ino in files && ino != f ensures OnDisk(zones', g, ino) == files[ino] {
      assert OnDisk(zones, g, ino) == files[ino];
    }
    assert Raw(zones', g, f) == raw;
  }

  ghost predicate OthersRaw(zones: Zones, zones': Zones, g: Geo, f: nat)
    requires Fits(g) && Sized(zones, g) && Sized(zones', g)
  {
    forall ino :: 0 < ino <= g.ninodes && ino != f ==> Raw(zones', g, ino) == Raw(zones, g, ino)
  }
}
