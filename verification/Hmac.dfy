/** HMAC-SHA256 (RFC 2104), with key, message and output buffers that may be the same. */
module Hmac {
  import opened Basics
  import opened Sha256

  function Xor(a: Byte, b: Byte): Byte
  {
    ((a as bv8) ^ (b as bv8)) as nat
  }

  function Masked(s: seq<Byte>, x: Byte): (r: seq<Byte>)
    ensures |r| == |s|
  {
    if s == [] then [] else Masked(s[..|s| - 1], x) + [Xor(s[|s| - 1], x)]
  }

  /** Section 2 of RFC 2104: a long key is hashed first, and every key is filled up with zeros to a block. */
  ghost function BlockKey(key: seq<Byte>): (k: seq<Byte>)
    ensures |k| == 64
  {
    var k := if |key| > 64 then Digest(key) else key;
    k + Zeros(64 - |k|)
  }

  ghost function HmacOf(key: seq<Byte>, msg: seq<Byte>): (d: seq<Byte>)
    ensures |d| == 32
  {
    Digest(Masked(BlockKey(key), 0x5c) + Digest(Masked(BlockKey(key), 0x36) + msg))
  }

  lemma {:induction false} ZerosAt(n: nat, i: nat)
    requires i < n
    ensures Zeros(n)[i] == 0
  {
    if i < n - 1 { ZerosAt(n - 1, i); }
  }

  lemma {:induction false} MaskedAt(s: seq<Byte>, x: Byte, i: nat)
    requires i < |s|
    ensures Masked(s, x)[i] == Xor(s[i], x)
  {
    if i < |s| - 1 { MaskedAt(s[..|s| - 1], x, i); }
  }

  /** Byte i of a pad is the key's byte i, or zero behind a short key, mixed with the pad's byte. */
  lemma PadBytes(key: seq<Byte>, x: Byte, i: nat)
    requires i < 64
    ensures |key| <= 64 ==> Masked(BlockKey(key), x)[i] == Xor(if i < |key| then key[i] else 0, x)
    ensures |key| > 64 ==> Masked(BlockKey(key), x)[i] == Xor(if i < 32 then Digest(key)[i] else 0, x)
  {
    hide Digest, Xor;
    var k := if |key| > 64 then Digest(key) else key;
    MaskedAt(BlockKey(key), x, i);
    if i >= |k| { ZerosAt(64 - |k|, i - |k|); }
  }

  /** The key block masked with a byte. */
  method MaskKey(k: array<Byte>, len: nat, x: Byte, pad: array<Byte>)
    requires len <= k.Length && len <= 64 && pad.Length == 64 && pad != k
    modifies pad
    ensures pad[..] == Masked(k[..len] + Zeros(64 - len), x)
  {
    hide Xor;
    ghost var block := k[..len] + Zeros(64 - len);
    for i := 0 to 64
      invariant pad[..i] == Masked(block[..i], x)
    {
      var kb := if i < len then k[i] else 0;
      assert kb == block[i] by { if i >= len { ZerosAt(64 - len, i - len); } }
      pad[i] := Xor(kb, x);
      assert block[..i + 1][..i] == block[..i];
    }
    assert block[..64] == block && pad[..64] == pad[..];
  }

  /** The two masked key blocks. */
  method MaskedKeys(key: array<Byte>, keyLen: nat) returns (ipad: array<Byte>, opad: array<Byte>)
    requires keyLen <= key.Length
    ensures fresh(ipad) && fresh(opad)
    ensures ipad[..] == Masked(BlockKey(key[..keyLen]), 0x36) && opad[..] == Masked(BlockKey(key[..keyLen]), 0x5c)
  {
    hide Digest, Masked, Zeros;
    var k, len := key, keyLen;
    if keyLen > 64 {
      k := new Byte[32];
      Hash(key[..keyLen], k);
      len := 32;
    }
    ipad, opad := new Byte[64], new Byte[64];
    MaskKey(k, len, 0x36, ipad);
    MaskKey(k, len, 0x5c, opad);
    assert k[..len] + Zeros(64 - len) == BlockKey(key[..keyLen]);
  }

  method HashTwo(first: seq<Byte>, second: seq<Byte>, out: array<Byte>)
    requires out.Length >= 32
    modifies out
    ensures out[..32] == Digest(first + second) && out[32..] == old(out[32..])
  {
    hide Digest, Context.Valid;
    var c := new Context();
    c.Update(first);
    c.Update(second);
    assert c.msg == first + second;
    c.Final(out);
  }

  method HmacSha256(key: array<Byte>, keyLen: nat, msg: array<Byte>, msgLen: nat, out: array<Byte>)
    requires keyLen <= key.Length && msgLen <= msg.Length && out.Length >= 32
    modifies out
    ensures out[..32] == HmacOf(old(key[..keyLen]), old(msg[..msgLen])) && out[32..] == old(out[32..])
  {
    hide Digest, Masked, Zeros, BlockKey;
    var ipad, opad := MaskedKeys(key, keyLen);
    var inner := new Byte[32];
    HashTwo(ipad[..], msg[..msgLen], inner);
    HashTwo(opad[..], inner[..32], out);
  }
}
