/** What several parts of the model share: optional values, bytes, and 32-bit bounds. */
module Basics {

  datatype Option<+T> = None | Some(value: T)

  type Byte = b: nat | b < 256

  const U32: nat := 0x1_0000_0000

  function Larger(a: nat, b: nat): nat
  {
    if a > b then a else b
  }

  function Pow256(k: nat): (p: nat)
    ensures p > 0
  {
    if k == 0 then 1 else 256 * Pow256(k - 1)
  }

  /** The number a byte string spells, most significant byte first. */
  function BeVal(s: seq<Byte>): nat
  {
    if s == [] then 0 else BeVal(s[..|s| - 1]) * 256 + s[|s| - 1]
  }

  /** Part of a byte string replaced. */
  function Splice(s: seq<Byte>, at: nat, b: seq<Byte>): (r: seq<Byte>)
    requires at + |b| <= |s|
    ensures |r| == |s| && r[at..at + |b|] == b
    ensures forall i, j :: 0 <= i <= j <= at ==> r[i..j] == s[i..j]
    ensures forall i, j :: at + |b| <= i <= j <= |s| ==> r[i..j] == s[i..j]
  {
    s[..at] + b + s[at + |b|..]
  }

  lemma Without<T>(s: set<T>, r: T)
    ensures |s| == |s - {r}| + (if r in s then 1 else 0)
  {
    if r in s {
      assert s == (s - {r}) + {r};
    } else {
      assert s == s - {r};
    }
  }
}
