/** Zones of a Minix file system: numbers in little-endian bytes, and the tree of zones of an inode. */
module MinixBlocks {
  import opened Basics

  // --- Little-endian numbers ---

  function Le(s: seq<Byte>): nat
  {
    if s == [] then 0
    else
      var low: nat := s[0];
      low + 256 * Le(s[1..])
  }

  /** Two- and four-byte numbers, low byte first. */
  lemma LeBytes(s: seq<Byte>)
    ensures |s| == 2 ==> var a: nat, b: nat := s[0], s[1]; Le(s) == a + 0x100 * b
    ensures |s| == 4 ==> var a: nat, b: nat, c: nat, d: nat := s[0], s[1], s[2], s[3];
                         Le(s) == a + 0x100 * b + 0x1_0000 * c + 0x100_0000 * d
  {
    if |s| == 2 {
      assert Le(s[1..]) == s[1..][0] + 256 * Le(s[1..][1..]) && s[1..][1..] == [];
    } else if |s| == 4 {
      assert Le(s[1..]) == s[1..][0] + 256 * Le(s[1..][1..]) && s[1..][1..] == s[2..];
      LeBytes(s[2..]);
    }
  }

  function ToLe(n: nat, w: nat): (s: seq<Byte>)
    ensures |s| == w
  {
    if w == 0 then [] else [n % 256] + ToLe(n / 256, w - 1)
  }

  function Limit(w: nat): nat
  {
    if w == 0 then 1 else 256 * Limit(w - 1)
  }

  lemma {:induction false} LeToLe(n: nat, w: nat)
    requires n < Limit(w)
    ensures Le(ToLe(n, w)) == n
  {
    if w > 0 {
      Quotient(n, Limit(w - 1));
      LeToLe(n / 256, w - 1);
      var s := ToLe(n, w);
      assert s[1..] == ToLe(n / 256, w - 1) && s[0] == n % 256;
    }
  }

  lemma Quotient(n: nat, m: nat)
    requires n < 256 * m
    ensures n / 256 < m && n == n % 256 + 256 * (n / 256)
  {
  }

  lemma {:induction false} LeZeros(s: seq<Byte>)
    requires forall i :: 0 <= i < |s| ==> s[i] == 0
    ensures Le(s) == 0
  {
    if s != [] { LeZeros(s[1..]); }
  }

  // --- Fields inside a zone ---

  /** The pointer at an index of a zone of pointers, each w bytes wide. */
  function Ptr(blk: seq<Byte>, w: nat, i: nat): nat
  {
    Word(blk, w, w * i)
  }

  function Word(blk: seq<Byte>, w: nat, at: nat): nat
  {
    if at + w <= |blk| then Le(blk[at..at + w]) else 0
  }

  function PutPtr(blk: seq<Byte>, w: nat, i: nat, n: nat): (r: seq<Byte>)
    requires w * i + w <= |blk|
    ensures |r| == |blk|
  {
    Splice(blk, w * i, ToLe(n, w))
  }

  lemma Apart(w: nat, i: nat, j: nat)
    ensures i < j ==> w * i + w <= w * j
  {
    if i < j {
      TimesOrder(w, i + 1, j);
      TimesNext(w, i);
    }
  }

  lemma TimesOrder(w: nat, a: nat, b: nat)
    requires a <= b
    ensures w * a <= w * b
  {
  }

  lemma TimesNext(w: nat, i: nat)
    ensures w * (i + 1) == w * i + w
  {
  }

  lemma WordPut(blk: seq<Byte>, w: nat, a: nat, n: nat, b: nat)
    requires a + w <= |blk| && n < Limit(w)
    ensures a == b ==> Word(Splice(blk, a, ToLe(n, w)), w, b) == n
    ensures a + w <= b || b + w <= a ==> Word(Splice(blk, a, ToLe(n, w)), w, b) == Word(blk, w, b)
  {
    LeToLe(n, w);
    hide Le, ToLe;
  }

  lemma PtrPut(blk: seq<Byte>, w: nat, i: nat, n: nat, j: nat)
    requires w * i + w <= |blk| && n < Limit(w)
    ensures Ptr(PutPtr(blk, w, i, n), w, j) == if i == j then n else Ptr(blk, w, j)
  {
    hide Le, ToLe, Word, Splice;
    Apart(w, i, j);
    Apart(w, j, i);
    WordPut(blk, w, w * i, n, w * j);
  }

  lemma PtrZero(blk: seq<Byte>, w: nat, i: nat)
    requires forall k :: 0 <= k < |blk| ==> blk[k] == 0
    ensures Ptr(blk, w, i) == 0
  {
    if w * i + w <= |blk| { LeZeros(blk[w * i..w * i + w]); }
  }
}
