/**
 The streaming SHA-1 of lib/sha1.c: for every way of cutting a message into updates,
 the digest is the block function folded over the padded message (section 5.1.1 and
 section 6.1 of FIPS 180-4). The block function itself is a parameter.
 */
module Sha1 {
  import opened Common
  import opened BlockHash

  datatype State = State(a: bv32, b: bv32, c: bv32, d: bv32, e: bv32)

  const INIT := State(0x67452301, 0xefcdab89, 0x98badcfe, 0x10325476, 0xc3d2e1f0)
  const MAX_INT := 0x7fff_ffff

  // The 64-bit length, high-order word first.
  function Length(msg: Bytes): (b: Bytes)
    ensures |b| == 8
  {
    BigEndian(HighCount(|msg|)) + BigEndian(LowCount(|msg|))
  }

  function Output(s: State): (b: Bytes)
    ensures |b| == 20
  {
    WordBigEndian(s.a) + WordBigEndian(s.b) + WordBigEndian(s.c) + WordBigEndian(s.d) + WordBigEndian(s.e)
  }

  // The one-shot digest.
  function Digest(f: Compress<State>, msg: Bytes): (d: Bytes)
    ensures |d| == 20
  {
    Output(Fold(f, INIT, Padded(msg, Length(msg))))
  }

  // The padded message by value: a one bit, zeros, and the number of bits modulo 2^64 in eight bytes,
  // most significant first.
  lemma PaddedByValue(msg: Bytes)
    ensures var p := Padded(msg, Length(msg));
            && |p| % 64 == 0 && |msg| + 9 <= |p| < |msg| + 73
            && p[..|msg|] == msg && p[|msg|] == 0x80 && (forall i | |msg| < i < |p| - 8 :: p[i] == 0)
            && Value(p[|p| - 8..]) == 8 * |msg| % TWO64
  {
    hide Value, BigEndian, Padded, LowCount, HighCount;
    PaddedForm(msg, Length(msg));
    var lo, hi := LowCount(|msg|), HighCount(|msg|);
    CountWords(|msg|);
    BigEndianValue([], hi);
    BigEndianValue(BigEndian(hi), lo);
    assert [] + BigEndian(hi) == BigEndian(hi);
    NoValue();
  }

  lemma NoValue()
    ensures Value([]) == 0
  {
  }

  function BigWord(b: Bytes): bv32
    requires |b| == 4
  {
    ((b[0] as bv32) << 24) | ((b[1] as bv32) << 16) | ((b[2] as bv32) << 8) | (b[3] as bv32)
  }

  // The output has the five words most significant byte first, and the initial words are those of
  // section 5.3.1 of FIPS 180-4.
  lemma OutputWords(s: State)
    ensures var b := Output(s);
            && BigWord(b[..4]) == s.a && BigWord(b[4..8]) == s.b && BigWord(b[8..12]) == s.c
            && BigWord(b[12..16]) == s.d && BigWord(b[16..]) == s.e
    ensures Output(INIT) == [0x67, 0x45, 0x23, 0x01, 0xef, 0xcd, 0xab, 0x89, 0x98, 0xba,
                             0xdc, 0xfe, 0x10, 0x32, 0x54, 0x76, 0xc3, 0xd2, 0xe1, 0xf0]
  {
    hide BigWord, WordBigEndian;
    var b := Output(s);
    BigWordBytes(s.a);
    BigWordBytes(s.b);
    BigWordBytes(s.c);
    BigWordBytes(s.d);
    BigWordBytes(s.e);
    assert b[..4] == WordBigEndian(s.a) && b[4..8] == WordBigEndian(s.b) && b[8..12] == WordBigEndian(s.c);
    assert b[12..16] == WordBigEndian(s.d) && b[16..] == WordBigEndian(s.e);
    InitialBytes();
  }

  lemma BigWordBytes(w: bv32)
    ensures BigWord(WordBigEndian(w)) == w
  {
  }

  lemma InitialBytes()
    ensures Output(INIT) == [0x67, 0x45, 0x23, 0x01, 0xef, 0xcd, 0xab, 0x89, 0x98, 0xba,
                             0xdc, 0xfe, 0x10, 0x32, 0x54, 0x76, 0xc3, 0xd2, 0xe1, 0xf0]
  {
  }

  class Sha1Info {
    const transform: Compress<State>
    const data: array<bv8>
    var digest: State
    var countLo: nat
    var countHi: nat
    var local: nat            // bytes waiting in the data buffer
    ghost var message: Bytes  // everything absorbed since Init

    ghost predicate Counted()
      reads this
    {
      countLo == LowCount(|message|) && countHi == HighCount(|message|)
    }

    ghost predicate Valid()
      reads this, data
    {
      && data.Length == 64
      && Counted()
      && local == |message| % 64
      && Absorbed(transform, INIT, message, digest, data[..])
    }

    constructor (transform: Compress<State>)
      ensures Valid() && fresh(data) && message == [] && this.transform == transform
    {
      this.transform := transform;
      data := new bv8[64];
      new;
      Init();
    }

    method Init()
      requires data.Length == 64
      modifies this
      ensures Valid() && message == []
    {
      digest, countLo, countHi, local, message := INIT, 0, 0, 0, [];
    }

    method AddCount(n: nat)
      requires n < TWO32 && Counted()
      modifies this`countLo, this`countHi
      ensures countLo == LowCount(|message| + n) && countHi == HighCount(|message| + n)
    {
      hide LowCount, HighCount;
      HighBound(|message|);
      var clo := (countLo + n * 8 % TWO32) % TWO32;
      var carry := if clo < countLo then 1 else 0;
      countHi := (countHi + carry) % TWO32;
      countLo := clo;
      countHi := (countHi + n / 0x2000_0000) % TWO32;
      CountStep(|message|, n, countLo, countHi);
    }

    // Copies bytes that leave the block short of full.
    method Keep(at: nat, chunk: Bytes, ghost msg: Bytes)
      requires data.Length == 64 && at == |msg| % 64 && at + |chunk| < 64
      requires Absorbed(transform, INIT, msg, digest, data[..])
      modifies data
      ensures Absorbed(transform, INIT, msg + chunk, digest, data[..])
    {
      hide Absorbed;
      ghost var was := data[..];
      CopyInto(data, at, chunk);
      AbsorbShort(transform, INIT, msg, digest, was, chunk, data[..]);
    }

    // Copies the bytes that fill the block and transforms it.
    method Fill(at: nat, chunk: Bytes, ghost msg: Bytes)
      requires data.Length == 64 && at == |msg| % 64 && at + |chunk| == 64
      requires Absorbed(transform, INIT, msg, digest, data[..])
      modifies this`digest, data
      ensures Absorbed(transform, INIT, msg + chunk, digest, data[..])
    {
      hide Absorbed;
      ghost var was := data[..];
      CopyInto(data, at, chunk);
      AbsorbFill(transform, INIT, msg, digest, was, chunk, data[..]);
      digest := transform(digest, data[..]);
    }

    // As much of the buffer as the partly filled block has room for; a full block is transformed.
    method TopUp(buffer: Bytes, ghost msg: Bytes) returns (i: nat)
      requires data.Length == 64 && local == |msg| % 64 && local != 0
      requires Absorbed(transform, INIT, msg, digest, data[..])
      modifies this`digest, this`local, data
      ensures i <= |buffer| && Absorbed(transform, INIT, msg + buffer[..i], digest, data[..])
      ensures local == 64 ==> |msg + buffer[..i]| % 64 == 0
      ensures local != 64 ==> i == |buffer| && local == |msg + buffer[..i]| % 64
    {
      hide Absorbed;
      i := 64 - local;
      if i > |buffer| {
        i := |buffer|;
      }
      if local + i == 64 {
        Fill(local, buffer[..i], msg);
        WholeAfter(msg, buffer[..i]);
      } else {
        Keep(local, buffer[..i], msg);
        ShortAfter(msg, buffer[..i]);
      }
      local := local + i;
    }

    method Update(buffer: Bytes)
      requires Valid() && |buffer| <= MAX_INT
      modifies this, data
      ensures Valid() && message == old(message) + buffer
    {
      hide Absorbed, LowCount, HighCount;
      ghost var msg := message;
      AddCount(|buffer|);
      message := msg + buffer;
      var at := 0;
      assert msg + buffer[..0] == msg;
      if local != 0 {
        at := TopUp(buffer, msg);
        if local != 64 {
          assert buffer[..at] == buffer;
          return;
        }
      }
      while |buffer| - at >= 64
        invariant 0 <= at <= |buffer| && |msg + buffer[..at]| % 64 == 0
        invariant Absorbed(transform, INIT, msg + buffer[..at], digest, data[..])
        invariant message == msg + buffer && Counted()
      {
        Fill(0, buffer[at..at + 64], msg + buffer[..at]);
        NextChunk(msg, buffer, at);
        at := at + 64;
      }
      Keep(0, buffer[at..], msg + buffer[..at]);
      LastChunk(msg, buffer, at);
      local := |buffer| - at;
    }

    // The block that ends in the length.
    method LastBlock(ghost head: Bytes, ghost msg: Bytes)
      requires data.Length == 64 && |head| == 56 && data[..56] == head
      requires countLo == LowCount(|msg|) && countHi == HighCount(|msg|)
      modifies this`digest, data
      ensures digest == transform(old(digest), head + Length(msg))
    {
      hide LowCount, HighCount, BigEndian;
      CopyInto(data, 56, BigEndian(countHi));
      CopyInto(data, 60, BigEndian(countLo));
      assert data[..] == head + Length(msg);
      digest := transform(digest, data[..]);
    }

    // The padding up to the length: one block more when fewer than eight bytes are left.
    method PadOut(at: nat, ghost r: Bytes)
      requires data.Length == 64 && |r| == at < 64 && data[..at] == r
      modifies this`digest, data
      ensures at < 56 ==> digest == old(digest) && data[..56] == r + [0x80] + Zeros(55 - at)
      ensures at >= 56 ==> digest == transform(old(digest), r + [0x80] + Zeros(63 - at)) && data[..56] == Zeros(56)
    {
      hide Zeros;
      CopyInto(data, at, [0x80]);
      var count := at + 1;
      if count > 64 - 8 {
        CopyInto(data, count, Zeros(64 - count));
        assert data[..] == r + [0x80] + Zeros(64 - count);
        digest := transform(digest, data[..]);
        CopyInto(data, 0, Zeros(56));
      } else {
        CopyInto(data, count, Zeros(56 - count));
        assert data[..56] == r + [0x80] + Zeros(56 - count);
      }
    }

    method Final() returns (d: Bytes)
      requires Valid()
      modifies this, data
      ensures d == Digest(transform, old(message))
    {
      hide Fold, LowCount, HighCount, Padded, Output, Length, Rest, Whole, Zeros;
      CountBytes(|message|);
      PadOut(countLo / 8 % 64, Rest(message));
      LastBlock(data[..56], message);
      FoldPadded(transform, INIT, message, Length(message));
      d := Output(digest);
    }
  }

  // However a message is cut into updates, its digest is the one-shot digest of the whole.
  method DigestOfChunks(transform: Compress<State>, chunks: seq<Bytes>) returns (digest: Bytes)
    requires forall i | 0 <= i < |chunks| :: |chunks[i]| <= MAX_INT
    ensures digest == Digest(transform, Concat(chunks))
  {
    hide Digest;
    var c := new Sha1Info(transform);
    for i := 0 to |chunks|
      invariant c.Valid() && fresh(c) && fresh(c.data) && c.transform == transform
      invariant c.message == Concat(chunks[..i])
    {
      c.Update(chunks[i]);
      ConcatStep(chunks, i);
    }
    assert chunks[..|chunks|] == chunks;
    digest := c.Final();
  }
}
