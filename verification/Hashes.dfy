/**
 The five digest algorithms. The modules that use them work for any functions with
 outputs of the right lengths; FromBlockFunctions makes MD5 and SHA-1 the ones that
 Md5Context and Sha1Info compute.
 */
module Hashes {
  import opened Common
  import BlockHash
  import Md5
  import Sha1

  datatype Algorithm = MD5 | SHA1 | SHA256 | SHA384 | SHA512

  type Functions = (Algorithm, Bytes) -> Bytes

  function DigestLen(a: Algorithm): (n: nat)
    ensures n <= 64
  {
    match a case MD5 => 16 case SHA1 => 20 case SHA256 => 32 case SHA384 => 48 case SHA512 => 64
  }

  function BlockLen(a: Algorithm): (n: nat)
    ensures DigestLen(a) <= n <= 128
  {
    match a case MD5 => 64 case SHA1 => 64 case SHA256 => 64 case SHA384 => 128 case SHA512 => 128
  }

  // The length of an unpadded base64 digest.
  function B64Len(a: Algorithm): nat {
    match a case MD5 => 22 case SHA1 => 27 case SHA256 => 43 case SHA384 => 64 case SHA512 => 86
  }

  // A digest has its algorithm's length whatever the functions are.
  function Digest(h: Functions, a: Algorithm, msg: Bytes): (d: Bytes)
    ensures |d| == DigestLen(a)
  {
    var d := h(a, msg);
    if |d| == DigestLen(a) then d else Zeros(DigestLen(a))
  }

  // MD5 and SHA-1 as the streaming contexts compute them, beside any SHA-2.
  function FromBlockFunctions(md5: BlockHash.Compress<Md5.State>, sha1: BlockHash.Compress<Sha1.State>,
                              sha2: Functions): Functions
  {
    (a: Algorithm, m: Bytes) =>
      match a
      case MD5 => Md5.Digest(md5, m)
      case SHA1 => Sha1.Digest(sha1, m)
      case _ => sha2(a, m)
  }

  lemma DigestFromBlockFunctions(md5: BlockHash.Compress<Md5.State>, sha1: BlockHash.Compress<Sha1.State>,
                                 sha2: Functions, m: Bytes)
    ensures Digest(FromBlockFunctions(md5, sha1, sha2), MD5, m) == Md5.Digest(md5, m)
    ensures Digest(FromBlockFunctions(md5, sha1, sha2), SHA1, m) == Sha1.Digest(sha1, m)
  {
  }

  // The streaming contexts compute the digests that the other modules use, however a message is cut.
  method DigestOfChunks(md5: BlockHash.Compress<Md5.State>, sha1: BlockHash.Compress<Sha1.State>, sha2: Functions,
                        a: Algorithm, chunks: seq<Bytes>)
      returns (d: Bytes)
    requires forall i | 0 <= i < |chunks| :: |chunks[i]| < TWO32 && (a == SHA1 ==> |chunks[i]| <= Sha1.MAX_INT)
    ensures d == Digest(FromBlockFunctions(md5, sha1, sha2), a, Concat(chunks))
  {
    hide Digest, FromBlockFunctions;
    DigestFromBlockFunctions(md5, sha1, sha2, Concat(chunks));
    match a
    case MD5 => d := Md5.DigestOfChunks(md5, chunks);
    case SHA1 => d := Sha1.DigestOfChunks(sha1, chunks);
    case _ => d := Digest(FromBlockFunctions(md5, sha1, sha2), a, Concat(chunks));
  }
}
