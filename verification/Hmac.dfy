/**
 The HMAC code of lib/hmac.c, in which the pads are always 128 bytes long and are
 filled using the length of the key before hashing, proved equal to section 2 of
 RFC 2104.
 */
module Hmac {
  import opened Common
  import opened Hashes
  import Gf256

  const MAX_DIGEST_BLOCK_LEN := 128

  lemma XorZero(b: bv8)
    ensures Gf256.Add(0, b) == b
  {
  }

  function XorPad(k: Bytes, pad: bv8): (r: Bytes)
    ensures |r| == |k| && forall i | 0 <= i < |k| :: r[i] == Gf256.Add(k[i], pad)
  {
    seq(|k|, i requires 0 <= i < |k| => Gf256.Add(k[i], pad))
  }

  // ----- section 2 of RFC 2104 -----

  // The key made exactly one block long.
  function BlockKey(h: Functions, a: Algorithm, key: Bytes): (k: Bytes)
    ensures |k| == BlockLen(a)
  {
    var k := if |key| > BlockLen(a) then Digest(h, a, key) else key;
    k + Zeros(BlockLen(a) - |k|)
  }

  function Rfc2104(h: Functions, a: Algorithm, key: Bytes, msg: Bytes): (d: Bytes)
    ensures |d| == DigestLen(a)
  {
    var k := BlockKey(h, a, key);
    Digest(h, a, XorPad(k, 0x5c) + Digest(h, a, XorPad(k, 0x36) + msg))
  }

  // Byte i of a key filled up with zeros.
  function KeyByte(k: Bytes, i: nat): bv8 { if i < |k| then k[i] else 0 }

  // H(K ^ opad, H(K ^ ipad, text)) written out: the block is 128 bytes for SHA-384 and SHA-512 and
  // 64 for the others, a longer key is hashed first, ipad is 0x36 and opad 0x5c.
  lemma Rfc2104WrittenOut(h: Functions, a: Algorithm, key: Bytes, msg: Bytes, inner: Bytes, outer: Bytes)
    requires |inner| == |outer| == if a == SHA384 || a == SHA512 then 128 else 64
    requires var k := if |key| > |inner| then Digest(h, a, key) else key;
             forall i | 0 <= i < |inner| :: inner[i] == KeyByte(k, i) ^ 0x36 && outer[i] == KeyByte(k, i) ^ 0x5c
    ensures Rfc2104(h, a, key, msg) == Digest(h, a, outer + Digest(h, a, inner + msg))
  {
    hide Digest;
    var k := BlockKey(h, a, key);
    assert inner == XorPad(k, 0x36);
    assert outer == XorPad(k, 0x5c);
  }

  // ----- the code -----

  // The part of a key that the code looks at.
  function Usable(key: Bytes): (k: Bytes)
    ensures |k| <= MAX_DIGEST_BLOCK_LEN
  {
    if |key| > MAX_DIGEST_BLOCK_LEN then key[..MAX_DIGEST_BLOCK_LEN] else key
  }

  // One byte of a pad, for a 128-byte key buffer of which keyLen bytes are looked at.
  function PadByte(k: Bytes, keyLen: nat, i: nat, pad: bv8): bv8
    requires |k| == MAX_DIGEST_BLOCK_LEN && i < |k|
  {
    if i < keyLen then Gf256.Add(k[i], pad) else pad
  }

  method PadInit(inner: array<bv8>, outer: array<bv8>, key: Bytes, keyLen: nat)
    requires inner != outer && inner.Length == outer.Length == |key| == MAX_DIGEST_BLOCK_LEN
    modifies inner, outer
    ensures forall i | 0 <= i < MAX_DIGEST_BLOCK_LEN :: inner[i] == PadByte(key, keyLen, i, 0x36)
    ensures forall i | 0 <= i < MAX_DIGEST_BLOCK_LEN :: outer[i] == PadByte(key, keyLen, i, 0x5c)
  {
    var i := 0;
    while i < MAX_DIGEST_BLOCK_LEN && i < keyLen
      invariant i <= MAX_DIGEST_BLOCK_LEN && i <= keyLen
      invariant forall j | 0 <= j < i :: inner[j] == PadByte(key, keyLen, j, 0x36)
      invariant forall j | 0 <= j < i :: outer[j] == PadByte(key, keyLen, j, 0x5c)
    {
      inner[i], outer[i] := Gf256.Add(key[i], 0x36), Gf256.Add(key[i], 0x5c);
      i := i + 1;
    }
    while i < MAX_DIGEST_BLOCK_LEN
      invariant i <= MAX_DIGEST_BLOCK_LEN && (i < MAX_DIGEST_BLOCK_LEN ==> keyLen <= i)
      invariant forall j | 0 <= j < i :: inner[j] == PadByte(key, keyLen, j, 0x36)
      invariant forall j | 0 <= j < i :: outer[j] == PadByte(key, keyLen, j, 0x5c)
    {
      inner[i], outer[i] := 0x36, 0x5c;
      i := i + 1;
    }
  }

  // The key buffer: the key or its digest, then zeros.
  function KeyBuffer(h: Functions, a: Algorithm, key: Bytes): (k: Bytes)
    ensures |k| == MAX_DIGEST_BLOCK_LEN
  {
    var k := if BlockLen(a) < |Usable(key)| then Digest(h, a, Usable(key)) else Usable(key);
    k + Zeros(MAX_DIGEST_BLOCK_LEN - |k|)
  }

  // Within a block the buffer is the block key, and it is zero beyond the key length.
  lemma BufferIsBlockKey(h: Functions, a: Algorithm, key: Bytes, i: nat)
    requires i < BlockLen(a)
    ensures KeyBuffer(h, a, key)[i] == BlockKey(h, a, Usable(key))[i]
    ensures |Usable(key)| <= i ==> KeyBuffer(h, a, key)[i] == 0
  {
    hide Digest;
  }

  lemma PadIsXor(k: Bytes, keyLen: nat, i: nat, pad: bv8)
    requires |k| == MAX_DIGEST_BLOCK_LEN && i < |k| && (keyLen <= i ==> k[i] == 0)
    ensures PadByte(k, keyLen, i, pad) == Gf256.Add(k[i], pad)
  {
    hide Gf256.Add;
    XorZero(pad);
  }

  lemma PadIsBlockKey(h: Functions, a: Algorithm, key: Bytes, buf: Bytes, pad: bv8)
    requires |buf| == MAX_DIGEST_BLOCK_LEN
    requires forall i | 0 <= i < |buf| :: buf[i] == PadByte(KeyBuffer(h, a, key), |Usable(key)|, i, pad)
    ensures buf[..BlockLen(a)] == XorPad(BlockKey(h, a, Usable(key)), pad)
  {
    hide Digest, BlockKey, KeyBuffer, PadByte, Usable, Gf256.Add;
    var k := BlockKey(h, a, Usable(key));
    forall i: nat | i < BlockLen(a) ensures buf[i] == Gf256.Add(k[i], pad) {
      BufferIsBlockKey(h, a, key, i);
      PadIsXor(KeyBuffer(h, a, key), |Usable(key)|, i, pad);
    }
  }

  // The two hash contexts are what they have absorbed.
  class HmacContext {
    const hashes: Functions
    const algorithm: Algorithm
    const innerPad: array<bv8>
    const outerPad: array<bv8>
    var inside: Bytes
    var outside: Bytes

    ghost predicate Valid()
      reads this
    {
      innerPad != outerPad && innerPad.Length == outerPad.Length == MAX_DIGEST_BLOCK_LEN
    }

    constructor (hashes: Functions, algorithm: Algorithm)
      ensures Valid() && fresh(innerPad) && fresh(outerPad)
      ensures this.hashes == hashes && this.algorithm == algorithm
    {
      this.hashes, this.algorithm := hashes, algorithm;
      innerPad, outerPad := new bv8[MAX_DIGEST_BLOCK_LEN], new bv8[MAX_DIGEST_BLOCK_LEN];
      inside, outside := [], [];
    }

    method Init(key: Bytes)
      requires Valid()
      modifies this, innerPad, outerPad
      ensures var k := BlockKey(hashes, algorithm, Usable(key));
              inside == XorPad(k, 0x36) && outside == XorPad(k, 0x5c)
    {
      hide Digest, BlockKey, XorPad, PadByte;
      var finalLen := |key|;
      if |key| > MAX_DIGEST_BLOCK_LEN {
        finalLen := MAX_DIGEST_BLOCK_LEN;
      }
      var initKey := key[..finalLen];
      var finalKey: Bytes;
      if BlockLen(algorithm) < |key| && algorithm !in {SHA384, SHA512} {
        finalKey := Digest(hashes, algorithm, initKey);
      } else {
        finalKey := initKey;
      }
      finalKey := finalKey + Zeros(MAX_DIGEST_BLOCK_LEN - |finalKey|);
      assert initKey == Usable(key);
      assert finalKey == KeyBuffer(hashes, algorithm, key);
      PadInit(innerPad, outerPad, finalKey, finalLen);
      inside, outside := innerPad[..BlockLen(algorithm)], outerPad[..BlockLen(algorithm)];
      PadIsBlockKey(hashes, algorithm, key, innerPad[..], 0x36);
      PadIsBlockKey(hashes, algorithm, key, outerPad[..], 0x5c);
    }

    method Update(msg: Bytes)
      modifies this`inside
      ensures inside == old(inside) + msg
    {
      inside := inside + msg;
    }

    method Final() returns (hmac: Bytes)
      modifies this`outside
      ensures hmac == Digest(hashes, algorithm, old(outside) + Digest(hashes, algorithm, inside))
    {
      var digestInside := Digest(hashes, algorithm, inside);
      outside := outside + digestInside;
      hmac := Digest(hashes, algorithm, outside);
    }
  }

  // What the code computes is RFC 2104 on the first 128 bytes of the key.
  method Compute(h: Functions, a: Algorithm, msg: Bytes, key: Bytes) returns (hmac: Bytes)
    ensures hmac == Rfc2104(h, a, Usable(key), msg)
    ensures |key| <= MAX_DIGEST_BLOCK_LEN ==> hmac == Rfc2104(h, a, key, msg)
  {
    hide Digest, BlockKey, XorPad, BlockLen, DigestLen;
    var c := new HmacContext(h, a);
    c.Init(key);
    c.Update(msg);
    hmac := c.Final();
  }
}
