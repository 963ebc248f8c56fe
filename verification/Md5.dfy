/**
 The streaming MD5 of lib/md5.c: for every way of cutting a message into updates,
 the digest is the block function folded over the padded message (sections 3.1 to
 3.4 of RFC 1321). The block function itself is a parameter.
 */
module Md5 {
  import opened Common
  import opened BlockHash

  datatype State = State(a: bv32, b: bv32, c: bv32, d: bv32)

  const INIT := State(0x67452301, 0xefcdab89, 0x98badcfe, 0x10325476)

  // The 64-bit length, low-order word first.
  function Length(msg: Bytes): (b: Bytes)
    ensures |b| == 8
  {
    LittleEndian(LowCount(|msg|)) + LittleEndian(HighCount(|msg|))
  }

  function Output(s: State): (b: Bytes)
    ensures |b| == 16
  {
    WordLittleEndian(s.a) + WordLittleEndian(s.b) + WordLittleEndian(s.c) + WordLittleEndian(s.d)
  }

  // The one-shot digest.
  function Digest(f: Compress<State>, msg: Bytes): (d: Bytes)
    ensures |d| == 16
  {
    Output(Fold(f, INIT, Padded(msg, Length(msg))))
  }

  // The padded message by value: a one bit, zeros, and the number of bits modulo 2^64 in eight bytes,
  // least significant first.
  lemma PaddedByValue(msg: Bytes)
    ensures var p := Padded(msg, Length(msg));
            && |p| % 64 == 0 && |msg| + 9 <= |p| < |msg| + 73
            && p[..|msg|] == msg && p[|msg|] == 0x80 && (forall i | |msg| < i < |p| - 8 :: p[i] == 0)
            && LittleValue(p[|p| - 8..]) == 8 * |msg| % TWO64
  {
    hide LittleValue, LittleEndian, Padded, LowCount, HighCount;
    PaddedForm(msg, Length(msg));
    var lo, hi := LowCount(|msg|), HighCount(|msg|);
    CountWords(|msg|);
    LittleValueAppend(LittleEndian(lo), LittleEndian(hi));
    LittleEndianValue(lo);
    LittleEndianValue(hi);
  }

  // The output has the four words least significant byte first, and the initial words are the
  // bytes 01 23 .. ef fe .. 10 of section 3.3 of RFC 1321.
  lemma OutputWords(s: State)
    ensures var b := Output(s);
            && LittleWord(b[..4]) == s.a && LittleWord(b[4..8]) == s.b
            && LittleWord(b[8..12]) == s.c && LittleWord(b[12..]) == s.d
    ensures Output(INIT) == [0x01, 0x23, 0x45, 0x67, 0x89, 0xab, 0xcd, 0xef,
                             0xfe, 0xdc, 0xba, 0x98, 0x76, 0x54, 0x32, 0x10]
  {
    hide LittleWord, WordLittleEndian;
    var b := Output(s);
    WordBytes(s.a);
    WordBytes(s.b);
    WordBytes(s.c);
    WordBytes(s.d);
    assert b[..4] == WordLittleEndian(s.a) && b[4..8] == WordLittleEndian(s.b);
    assert b[8..12] == WordLittleEndian(s.c) && b[12..] == WordLittleEndian(s.d);
    InitialBytes();
  }

  lemma InitialBytes()
    ensures Output(INIT) == [0x01, 0x23, 0x45, 0x67, 0x89, 0xab, 0xcd, 0xef,
                             0xfe, 0xdc, 0xba, 0x98, 0x76, 0x54, 0x32, 0x10]
  {
  }

  class Md5Context {
    const transform: Compress<State>
    const block: array<bv8>
    var buf: State
    var bits0: nat
    var bits1: nat
    ghost var message: Bytes  // everything absorbed since Init

    ghost predicate Valid()
      reads this, block
    {
      && block.Length == 64
      && bits0 == LowCount(|message|)
      && bits1 == HighCount(|message|)
      && Absorbed(transform, INIT, message, buf, block[..])
    }

    constructor (transform: Compress<State>)
      ensures Valid() && fresh(block) && message == [] && this.transform == transform
    {
      this.transform := transform;
      block := new bv8[64];
      new;
      Init();
    }

    method Init()
      requires block.Length == 64
      modifies this
      ensures Valid() && message == []
    {
      buf, bits0, bits1, message := INIT, 0, 0, [];
    }

    method AddCount(n: nat)
      requires n < TWO32 && bits0 == LowCount(|message|) && bits1 == HighCount(|message|)
      modifies this`bits0, this`bits1
      ensures bits0 == LowCount(|message| + n) && bits1 == HighCount(|message| + n)
    {
      hide LowCount, HighCount;
      var t := bits0;
      bits0 := (t + n * 8 % TWO32) % TWO32;
      if bits0 < t {
        bits1 := (bits1 + 1) % TWO32;
      }
      HighBound(|message|);
      bits1 := (bits1 + n / 0x2000_0000) % TWO32;
      CountStep(|message|, n, bits0, bits1);
    }

    // Copies bytes that leave the block short of full.
    method Keep(t: nat, chunk: Bytes, ghost msg: Bytes)
      requires block.Length == 64 && t == |msg| % 64 && t + |chunk| < 64
      requires Absorbed(transform, INIT, msg, buf, block[..])
      modifies block
      ensures Absorbed(transform, INIT, msg + chunk, buf, block[..])
    {
      hide Absorbed;
      ghost var was := block[..];
      CopyInto(block, t, chunk);
      AbsorbShort(transform, INIT, msg, buf, was, chunk, block[..]);
    }

    // Copies the bytes that fill the block and transforms it.
    method Fill(t: nat, chunk: Bytes, ghost msg: Bytes)
      requires block.Length == 64 && t == |msg| % 64 && t + |chunk| == 64
      requires Absorbed(transform, INIT, msg, buf, block[..])
      modifies this`buf, block
      ensures Absorbed(transform, INIT, msg + chunk, buf, block[..])
    {
      hide Absorbed;
      ghost var was := block[..];
      CopyInto(block, t, chunk);
      AbsorbFill(transform, INIT, msg, buf, was, chunk, block[..]);
      buf := transform(buf, block[..]);
    }

    method Update(data: Bytes)
      requires Valid() && |data| < TWO32
      modifies this, block
      ensures Valid() && message == old(message) + data
    {
      hide Absorbed, LowCount, HighCount;
      ghost var msg := message;
      CountBytes(|msg|);
      var t := bits0 / 8 % 64;
      AddCount(|data|);
      message := msg + data;
      var at := 0;
      assert msg + data[..0] == msg;
      if t != 0 {
        if |data| < 64 - t {
          Keep(t, data, msg);
          return;
        }
        at := 64 - t;
        Fill(t, data[..at], msg);
        WholeAfter(msg, data[..at]);
      }
      while |data| - at >= 64
        invariant 0 <= at <= |data| && |msg + data[..at]| % 64 == 0
        invariant Absorbed(transform, INIT, msg + data[..at], buf, block[..])
        invariant message == msg + data && bits0 == LowCount(|message|) && bits1 == HighCount(|message|)
      {
        Fill(0, data[at..at + 64], msg + data[..at]);
        NextChunk(msg, data, at);
        at := at + 64;
      }
      Keep(0, data[at..], msg + data[..at]);
      LastChunk(msg, data, at);
    }

    // The block that ends in the length.
    method LastBlock(ghost head: Bytes, ghost msg: Bytes)
      requires block.Length == 64 && |head| == 56 && block[..56] == head
      requires bits0 == LowCount(|msg|) && bits1 == HighCount(|msg|)
      modifies this`buf, block
      ensures buf == transform(old(buf), head + Length(msg))
    {
      hide LowCount, HighCount, LittleEndian;
      CopyInto(block, 56, LittleEndian(bits0));
      CopyInto(block, 60, LittleEndian(bits1));
      assert block[..] == head + Length(msg);
      buf := transform(buf, block[..]);
    }

    // The padding up to the length: one block more when fewer than eight bytes are left.
    method PadOut(count: nat, ghost r: Bytes)
      requires block.Length == 64 && |r| == count < 64 && block[..count] == r
      modifies this`buf, block
      ensures count < 56 ==> buf == old(buf) && block[..56] == r + [0x80] + Zeros(55 - count)
      ensures count >= 56 ==> buf == transform(old(buf), r + [0x80] + Zeros(63 - count)) && block[..56] == Zeros(56)
    {
      hide Zeros;
      CopyInto(block, count, [0x80]);
      var room := 63 - count;
      if room < 8 {
        CopyInto(block, count + 1, Zeros(room));
        assert block[..] == r + [0x80] + Zeros(room);
        buf := transform(buf, block[..]);
        CopyInto(block, 0, Zeros(56));
      } else {
        CopyInto(block, count + 1, Zeros(room - 8));
        assert block[..56] == r + [0x80] + Zeros(room - 8);
      }
    }

    method Final() returns (digest: Bytes)
      requires Valid()
      modifies this, block
      ensures digest == Digest(transform, old(message))
      ensures buf == State(0, 0, 0, 0) && bits0 == bits1 == 0 && block[..] == Zeros(64)
    {
      hide Fold, LowCount, HighCount, Padded, Output, Length, Rest, Whole, Zeros;
      CountBytes(|message|);
      var count := bits0 / 8 % 64;
      PadOut(count, Rest(message));
      LastBlock(block[..56], message);
      FoldPadded(transform, INIT, message, Length(message));
      digest := Output(buf);
      buf, bits0, bits1 := State(0, 0, 0, 0), 0, 0;
      CopyInto(block, 0, Zeros(64));
    }
  }

  // However a message is cut into updates, its digest is the one-shot digest of the whole.
  method DigestOfChunks(transform: Compress<State>, chunks: seq<Bytes>) returns (digest: Bytes)
    requires forall i | 0 <= i < |chunks| :: |chunks[i]| < TWO32
    ensures digest == Digest(transform, Concat(chunks))
  {
    hide Digest;
    var c := new Md5Context(transform);
    for i := 0 to |chunks|
      invariant c.Valid() && fresh(c) && fresh(c.block) && c.transform == transform
      invariant c.message == Concat(chunks[..i])
    {
      c.Update(chunks[i]);
      ConcatStep(chunks, i);
    }
    assert chunks[..|chunks|] == chunks;
    digest := c.Final();
  }
}
