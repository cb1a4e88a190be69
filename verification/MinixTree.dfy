/** Which zone belongs to which place of which inode, and why no zone ever belongs to two. */
module MinixTree {
  import opened Basics
  import opened MinixBlocks

  type Zones = seq<seq<Byte>>

  datatype Inode = Inode(mode: nat, size: nat, zone: seq<nat>)

  type Inodes = map<nat, Inode>

  /** Where a zone number can stand: in the inode, in the single or the double indirect zone, or one level
      below that. */
  datatype Site = Slot(i: nat) | Single(i: nat) | Double(i: nat) | Second(i: nat, j: nat)

  function Deref(zones: Zones, w: nat, z: nat, i: nat): nat
  {
    if z == 0 || z >= |zones| then 0 else Ptr(zones[z], w, i)
  }

  function SlotAt(nd: Inode, i: nat): nat
  {
    if i < 9 && i < |nd.zone| then nd.zone[i] else 0
  }

  /** The zone at a site; zero is none. */
  function ZoneAt(zones: Zones, w: nat, nd: Inode, s: Site): nat
  {
    match s
    case Slot(i) => SlotAt(nd, i)
    case Single(i) => Deref(zones, w, SlotAt(nd, 7), i)
    case Double(i) => Deref(zones, w, SlotAt(nd, 8), i)
    case Second(i, j) => Deref(zones, w, Deref(zones, w, SlotAt(nd, 8), i), j)
  }

  datatype Place = Place(ino: nat, site: Site)

  type Owners = map<nat, Place>

  /** Every zone in use has one place, the one recorded for it: so no two places share a zone. */
  ghost predicate Sound(zones: Zones, w: nat, files: Inodes, own: Owners)
  {
    forall ino, s ::
      ino in files && ZoneAt(zones, w, files[ino], s) != 0 ==>
        ZoneAt(zones, w, files[ino], s) in own && own[ZoneAt(zones, w, files[ino], s)] == Place(ino, s)
  }

  lemma SitesDistinct(zones: Zones, w: nat, files: Inodes, own: Owners, f: nat, s: Site, g: nat, t: Site)
    requires Sound(zones, w, files, own) && f in files && g in files && (f != g || s != t)
    requires ZoneAt(zones, w, files[f], s) != 0
    ensures ZoneAt(zones, w, files[f], s) != ZoneAt(zones, w, files[g], t)
  {
  }

  predicate PointerSite(s: Site)
  {
    s == Slot(7) || s == Slot(8) || s.Double?
  }

  /** Zones that hold no pointers can change without any zone changing its place. */
  lemma SameTree(zones: Zones, zones': Zones, w: nat, files: Inodes, own: Owners, ino: nat, s: Site)
    requires Sound(zones, w, files, own) && |zones'| == |zones| && ino in files
    requires forall z :: z in own && z < |zones| && PointerSite(own[z].site) ==> zones'[z] == zones[z]
    ensures ZoneAt(zones', w, files[ino], s) == ZoneAt(zones, w, files[ino], s)
  {
    var nd := files[ino];
    assert ZoneAt(zones, w, nd, Slot(7)) == SlotAt(nd, 7) && ZoneAt(zones, w, nd, Slot(8)) == SlotAt(nd, 8);
    match s
    case Slot(_) =>
    case Single(_) =>
    case Double(_) =>
    case Second(i, j) =>
      assert ZoneAt(zones, w, nd, Double(i)) == Deref(zones, w, SlotAt(nd, 8), i);
  }

  lemma SameTreeSound(zones: Zones, zones': Zones, w: nat, files: Inodes, own: Owners)
    requires Sound(zones, w, files, own) && |zones'| == |zones|
    requires forall z :: z in own && z < |zones| && PointerSite(own[z].site) ==> zones'[z] == zones[z]
    ensures Sound(zones', w, files, own)
  {
    forall ino, s | ino in files && ZoneAt(zones', w, files[ino], s) != 0
      ensures ZoneAt(zones', w, files[ino], s) in own && own[ZoneAt(zones', w, files[ino], s)] == Place(ino, s)
    {
      SameTree(zones, zones', w, files, own, ino, s);
    }
  }

  /** A zone on no site takes an empty one. */
  ghost predicate AddsSite(zones: Zones, files: Inodes, zones': Zones, files': Inodes, w: nat, f: nat, s0: Site, z: nat)
  {
    && files'.Keys == files.Keys
    && forall ino, s ::
         ino in files && ino in files' ==>
           ZoneAt(zones', w, files'[ino], s) ==
           if ino == f && s == s0 then z else ZoneAt(zones, w, files[ino], s)
  }

  lemma AddSound(zones: Zones, files: Inodes, own: Owners, zones': Zones, files': Inodes, w: nat, f: nat, s0: Site,
                 z: nat)
    requires Sound(zones, w, files, own) && AddsSite(zones, files, zones', files', w, f, s0, z) && z !in own
    ensures Sound(zones', w, files', own[z := Place(f, s0)])
  {
  }

  ghost predicate Blank(blk: seq<Byte>)
  {
    forall k :: 0 <= k < |blk| ==> blk[k] == 0
  }

  lemma BlankDeref(zones: Zones, w: nat, z: nat, i: nat)
    requires z < |zones| && Blank(zones[z])
    ensures Deref(zones, w, z, i) == 0
  {
    PtrZero(zones[z], w, i);
  }

  /** A blank zone in an empty slot of an inode. */
  lemma SlotAdds(zones: Zones, w: nat, files: Inodes, f: nat, i: nat, z: nat)
    requires f in files && i < 9 && i < |files[f].zone| && files[f].zone[i] == 0
    requires 0 < z < |zones| && Blank(zones[z])
    ensures AddsSite(zones, files, zones, files[f := files[f].(zone := files[f].zone[i := z])], w, f, Slot(i), z)
  {
    hide Ptr;
    var nd := files[f];
    var nd' := nd.(zone := nd.zone[i := z]);
    assert forall k :: SlotAt(nd', k) == if k == i then z else SlotAt(nd, k);
    forall s ensures ZoneAt(zones, w, nd', s) == if s == Slot(i) then z else ZoneAt(zones, w, nd, s) {
      match s
      case Slot(_) =>
      case Single(a) => BlankDeref(zones, w, z, a);
      case Double(a) => BlankDeref(zones, w, z, a);
      case Second(a, b) => BlankDeref(zones, w, z, a);
    }
  }

  /** The site that index i of a pointer zone at a site stands for. */
  function Child(s: Site, i: nat): Site
    requires PointerSite(s)
  {
    if s == Slot(7) then Single(i) else if s == Slot(8) then Double(i) else Second(s.i, i)
  }

  /** A blank zone in an empty entry of a pointer zone. */
  lemma PtrAdds(zones: Zones, w: nat, files: Inodes, own: Owners, f: nat, sb: Site, i: nat, b: nat, z: nat,
                zones': Zones)
    requires Sound(zones, w, files, own) && f in files && PointerSite(sb) && b == ZoneAt(zones, w, files[f], sb)
    requires 0 < b < |zones| && w * i + w <= |zones[b]| && ZoneAt(zones, w, files[f], Child(sb, i)) == 0
    requires 0 < z < |zones| && z < Limit(w) && Blank(zones[z]) && z !in own
    requires zones' == zones[b := PutPtr(zones[b], w, i, z)]
    ensures AddsSite(zones, files, zones', files, w, f, Child(sb, i), z)
  {
    forall ino, s | ino in files
      ensures ZoneAt(zones', w, files[ino], s) ==
        if ino == f && s == Child(sb, i) then z else ZoneAt(zones, w, files[ino], s)
    {
      PtrAddsAt(zones, w, files, own, f, sb, i, b, z, zones', ino, s);
    }
  }

  lemma DerefPut(zones: Zones, w: nat, b: nat, i: nat, z: nat, c: nat, j: nat)
    requires 0 < b < |zones| && w * i + w <= |zones[b]| && z < Limit(w)
    ensures Deref(zones[b := PutPtr(zones[b], w, i, z)], w, c, j) == if c == b && j == i then z
            else Deref(zones, w, c, j)
  {
    if c == b { PtrPut(zones[b], w, i, z, j); }
  }

  lemma PtrAddsAt(zones: Zones, w: nat, files: Inodes, own: Owners, f: nat, sb: Site, i: nat, b: nat, z: nat,
                  zones': Zones, ino: nat, s: Site)
    requires Sound(zones, w, files, own) && f in files && PointerSite(sb) && b == ZoneAt(zones, w, files[f], sb)
    requires 0 < b < |zones| && w * i + w <= |zones[b]| && ZoneAt(zones, w, files[f], Child(sb, i)) == 0
    requires 0 < z < |zones| && z < Limit(w) && Blank(zones[z]) && z !in own
    requires zones' == zones[b := PutPtr(zones[b], w, i, z)] && ino in files
    ensures ZoneAt(zones', w, files[ino], s) ==
      if ino == f && s == Child(sb, i) then z else ZoneAt(zones, w, files[ino], s)
  {
    hide Ptr, PutPtr;
    var nd := files[ino];
    assert own[b] == Place(f, sb);
    assert ZoneAt(zones, w, nd, Slot(7)) == SlotAt(nd, 7) && ZoneAt(zones, w, nd, Slot(8)) == SlotAt(nd, 8);
    match s
    case Slot(_) =>
    case Single(j) =>
      DerefPut(zones, w, b, i, z, SlotAt(nd, 7), j);
    case Double(j) =>
      DerefPut(zones, w, b, i, z, SlotAt(nd, 8), j);
    case Second(k, j) =>
      DerefPut(zones, w, b, i, z, SlotAt(nd, 8), k);
      var z1 := Deref(zones, w, SlotAt(nd, 8), k);
      assert z1 == ZoneAt(zones, w, nd, Double(k));
      DerefPut(zones, w, b, i, z, z1, j);
      DerefPut(zones, w, b, i, z, z, j);
      BlankDeref(zones, w, z, j);
  }
}
