/**
 The iteration shared by MD5 and SHA-1: a compression function folded over the
 64-byte blocks of a padded message. The compression function is a parameter.
 */
module BlockHash {
  import opened Common

  // From a chaining value and a 64-byte block to the next chaining value.
  type Compress<!S> = (S, Bytes) -> S

  // The compression function folded over the whole blocks of the data.
  function Fold<S>(f: Compress<S>, s: S, data: Bytes): S
    requires |data| % 64 == 0
  {
    if data == [] then s else f(Fold(f, s, data[..|data| - 64]), data[|data| - 64..])
  }

  // The whole blocks of a message and the bytes after them.
  function Whole(msg: Bytes): (w: Bytes)
    ensures |w| % 64 == 0
  {
    msg[..|msg| / 64 * 64]
  }

  function Rest(msg: Bytes): (r: Bytes)
    ensures |r| == |msg| % 64 && msg == Whole(msg) + r
  {
    msg[|msg| / 64 * 64..]
  }

  lemma FoldBlock<S>(f: Compress<S>, s: S, data: Bytes, block: Bytes)
    requires |data| % 64 == 0 && |block| == 64
    ensures Fold(f, s, data + block) == f(Fold(f, s, data), block)
  {
    var d := data + block;
    assert d[..|d| - 64] == data && d[|d| - 64..] == block;
  }

  lemma SplitAfter(w: Bytes, r: Bytes)
    requires |w| % 64 == 0 && |r| < 64
    ensures Whole(w + r) == w && Rest(w + r) == r
  {
    assert |w + r| / 64 * 64 == |w|;
  }

  lemma WholeAfter(msg: Bytes, chunk: Bytes)
    requires |msg| % 64 + |chunk| == 64
    ensures |msg + chunk| % 64 == 0
  {
  }

  lemma ShortAfter(msg: Bytes, chunk: Bytes)
    requires |msg| % 64 + |chunk| < 64
    ensures |msg + chunk| % 64 == |msg| % 64 + |chunk|
  {
  }

  lemma NextChunk(msg: Bytes, data: Bytes, at: nat)
    requires at + 64 <= |data| && |msg + data[..at]| % 64 == 0
    ensures msg + data[..at + 64] == msg + data[..at] + data[at..at + 64]
    ensures |msg + data[..at + 64]| % 64 == 0
  {
    assert data[..at + 64] == data[..at] + data[at..at + 64];
  }

  lemma LastChunk(msg: Bytes, data: Bytes, at: nat)
    requires at <= |data| < at + 64 && |msg + data[..at]| % 64 == 0
    ensures msg + data[..at] + data[at..] == msg + data
    ensures |msg + data| % 64 == |data| - at
  {
    assert data == data[..at] + data[at..];
    ShortAfter(msg + data[..at], data[at..]);
  }

  // A one bit, zero bits up to eight bytes short of a whole block, and the length.
  function Padded(msg: Bytes, length: Bytes): (p: Bytes)
    requires |length| == 8
    ensures |p| % 64 == 0
  {
    msg + [0x80] + Zeros((119 - |msg| % 64) % 64) + length
  }

  // The blocks the padding adds to the rest of the message: one or two.
  lemma FoldPadded<S>(f: Compress<S>, s: S, msg: Bytes, length: Bytes)
    requires |length| == 8
    ensures var h, r, c := Fold(f, s, Whole(msg)), Rest(msg), |msg| % 64;
            Fold(f, s, Padded(msg, length))
            == if c < 56 then f(h, r + [0x80] + Zeros(55 - c) + length)
               else f(f(h, r + [0x80] + Zeros(63 - c)), Zeros(56) + length)
  {
    var w, r, c := Whole(msg), Rest(msg), |msg| % 64;
    if c < 56 {
      var b := r + [0x80] + Zeros(55 - c) + length;
      assert Padded(msg, length) == w + b;
      FoldBlock(f, s, w, b);
    } else {
      var b1, b2 := r + [0x80] + Zeros(63 - c), Zeros(56) + length;
      assert Zeros((119 - c) % 64) == Zeros(63 - c) + Zeros(56);
      assert Padded(msg, length) == (w + b1) + b2;
      FoldBlock(f, s, w, b1);
      FoldBlock(f, s, w + b1, b2);
    }
  }

  // ----- the two-word bit count -----

  function LowCount(n: nat): nat { 8 * n % TWO32 }
  function HighCount(n: nat): nat { 8 * n / TWO32 % TWO32 }

  // A sum of numbers written as q * 2^32 + r.
  lemma SumDivMod(m: nat, l: nat)
    ensures var a, b := m % TWO32, l % TWO32;
            && (m + l) % TWO32 == (if a + b < TWO32 then a + b else a + b - TWO32)
            && (m + l) / TWO32 == m / TWO32 + l / TWO32 + (if a + b < TWO32 then 0 else 1)
  {
    var a, b := m % TWO32, l % TWO32;
    var carry := if a + b < TWO32 then 0 else 1;
    DivModUnique(m + l, m / TWO32 + l / TWO32 + carry, a + b - carry * TWO32);
  }

  lemma DivModUnique(n: nat, q: nat, r: nat)
    requires n == q * TWO32 + r && r < TWO32
    ensures n / TWO32 == q && n % TWO32 == r
  {
  }

  lemma ModModSum(x: nat, y: nat)
    ensures (x % TWO32 + y) % TWO32 == (x + y) % TWO32
  {
    SumDivMod(x, y);
    SumDivMod(x % TWO32, y);
  }

  // Adding `len` bytes with a carry between the words keeps the count modulo 2^64.
  lemma CountStep(n: nat, len: nat, lo: nat, hi: nat)
    requires len < TWO32
    requires lo == (LowCount(n) + len * 8 % TWO32) % TWO32
    requires hi == ((HighCount(n) + if lo < LowCount(n) then 1 else 0) % TWO32 + len / 0x2000_0000) % TWO32
    ensures lo == LowCount(n + len) && hi == HighCount(n + len)
  {
    WordsOfSum(8 * n, 8 * len, lo);
    EighthWord(len);
    ModModSum(8 * n / TWO32, if lo < LowCount(n) then 1 else 0);
    ModModSum(8 * n / TWO32 + if lo < LowCount(n) then 1 else 0, len / 0x2000_0000);
  }

  lemma EighthWord(len: nat)
    ensures 8 * len / TWO32 == len / 0x2000_0000
  {
    DivModUnique(8 * len, len / 0x2000_0000, 8 * (len % 0x2000_0000));
  }

  // The carry shows in the low word.
  lemma WordsOfSum(m: nat, l: nat, lo: nat)
    requires lo == (m % TWO32 + l % TWO32) % TWO32
    ensures lo == (m + l) % TWO32
    ensures (m + l) / TWO32 == m / TWO32 + (if lo < m % TWO32 then 1 else 0) + l / TWO32
  {
    SumDivMod(m, l);
    SumDivMod(m % TWO32, l % TWO32);
  }

  lemma HighBound(n: nat)
    ensures HighCount(n) < TWO32
  {
  }

  lemma CountBytes(n: nat)
    ensures LowCount(n) / 8 % 64 == n % 64
  {
    var q := 8 * n / TWO32;
    assert LowCount(n) == 8 * (n - q * 0x2000_0000);
    assert LowCount(n) / 8 == n - q * 0x2000_0000;
    ModMultiple(n - q * 0x2000_0000, q * 0x80_0000);
  }

  lemma ModMultiple(a: nat, k: nat)
    ensures (a + 64 * k) % 64 == a % 64
  {
  }

  function NatByte(n: nat): bv8 { (n % 256) as bv8 }

  // The four bytes of a 32-bit number, least and most significant first.
  function LittleEndian(n: nat): (b: Bytes)
    ensures |b| == 4
  {
    [NatByte(n), NatByte(n / 0x100), NatByte(n / 0x1_0000), NatByte(n / 0x100_0000)]
  }

  function BigEndian(n: nat): (b: Bytes)
    ensures |b| == 4
  {
    [NatByte(n / 0x100_0000), NatByte(n / 0x1_0000), NatByte(n / 0x100), NatByte(n)]
  }

  function WordLittleEndian(w: bv32): (b: Bytes)
    ensures |b| == 4
  {
    [(w & 0xff) as bv8, ((w >> 8) & 0xff) as bv8, ((w >> 16) & 0xff) as bv8, ((w >> 24) & 0xff) as bv8]
  }

  // The word of four bytes, least significant first.
  function LittleWord(b: Bytes): bv32
    requires |b| == 4
  {
    (b[0] as bv32) | ((b[1] as bv32) << 8) | ((b[2] as bv32) << 16) | ((b[3] as bv32) << 24)
  }

  lemma WordBytes(w: bv32)
    ensures LittleWord(WordLittleEndian(w)) == w
  {
  }

  function WordBigEndian(w: bv32): (b: Bytes)
    ensures |b| == 4
  {
    [((w >> 24) & 0xff) as bv8, ((w >> 16) & 0xff) as bv8, ((w >> 8) & 0xff) as bv8, (w & 0xff) as bv8]
  }

  // ----- the padding by value -----

  // The number that bytes denote, least significant first.
  function LittleValue(b: Bytes): nat {
    if b == [] then 0 else b[0] as nat + 256 * LittleValue(b[1..])
  }

  lemma NatByteValue(n: nat)
    ensures NatByte(n) as nat == n % 256
  {
    ByteOfSmall(n % 256);
  }

  lemma {:induction false} LittleValueAppend(a: Bytes, b: Bytes)
    requires |a| == 4
    ensures LittleValue(a + b) == LittleValue(a) + TWO32 * LittleValue(b)
  {
    hide LittleValue;
    LittleValueStep(a[0], a[1..] + b);
    LittleValueStep(a[1], a[2..] + b);
    LittleValueStep(a[2], a[3..] + b);
    LittleValueStep(a[3], b);
    assert a + b == [a[0]] + (a[1..] + b) && a[1..] + b == [a[1]] + (a[2..] + b);
    assert a[2..] + b == [a[2]] + (a[3..] + b) && a[3..] + b == [a[3]] + b;
    LittleValueOfFour(a);
  }

  lemma NoLittleValue()
    ensures LittleValue([]) == 0
  {
  }

  lemma LittleValueStep(x: bv8, b: Bytes)
    ensures LittleValue([x] + b) == x as nat + 256 * LittleValue(b)
  {
    assert ([x] + b)[1..] == b;
  }

  lemma LittleValueOfFour(a: Bytes)
    requires |a| == 4
    ensures LittleValue(a)
         == a[0] as nat + 0x100 * (a[1] as nat) + 0x1_0000 * (a[2] as nat) + 0x100_0000 * (a[3] as nat)
  {
    hide LittleValue;
    LittleValueStep(a[0], a[1..]);
    LittleValueStep(a[1], a[2..]);
    LittleValueStep(a[2], a[3..]);
    LittleValueStep(a[3], []);
    NoLittleValue();
    assert a == [a[0]] + a[1..] && a[1..] == [a[1]] + a[2..] && a[2..] == [a[2]] + a[3..] && a[3..] == [a[3]] + [];
  }

  lemma FourBytes(n: nat)
    requires n < TWO32
    ensures n == n % 256 + 0x100 * (n / 0x100 % 256) + 0x1_0000 * (n / 0x1_0000 % 256)
                 + 0x100_0000 * (n / 0x100_0000 % 256)
  {
  }

  lemma LittleEndianValue(n: nat)
    requires n < TWO32
    ensures LittleValue(LittleEndian(n)) == n
  {
    hide NatByte;
    NatByteValue(n);
    NatByteValue(n / 0x100);
    NatByteValue(n / 0x1_0000);
    NatByteValue(n / 0x100_0000);
    LittleValueOfFour(LittleEndian(n));
    FourBytes(n);
  }

  lemma ValueStep(b: Bytes, x: bv8)
    ensures Value(b + [x]) == Value(b) * 256 + x as nat
  {
    assert (b + [x])[..|b|] == b;
  }

  lemma ValueAppendFour(b: Bytes, a: Bytes)
    requires |a| == 4
    ensures Value(b + a)
         == Value(b) * TWO32
            + 0x100_0000 * (a[0] as nat) + 0x1_0000 * (a[1] as nat) + 0x100 * (a[2] as nat) + a[3] as nat
  {
    hide Value;
    ValueStep(b, a[0]);
    ValueStep(b + [a[0]], a[1]);
    ValueStep(b + [a[0]] + [a[1]], a[2]);
    ValueStep(b + [a[0]] + [a[1]] + [a[2]], a[3]);
    assert b + a == b + [a[0]] + [a[1]] + [a[2]] + [a[3]];
  }

  lemma BigEndianValue(b: Bytes, n: nat)
    requires n < TWO32
    ensures Value(b + BigEndian(n)) == Value(b) * TWO32 + n
  {
    hide NatByte, Value;
    NatByteValue(n);
    NatByteValue(n / 0x100);
    NatByteValue(n / 0x1_0000);
    NatByteValue(n / 0x100_0000);
    ValueAppendFour(b, BigEndian(n));
    FourBytes(n);
  }

  // The two words are the bit count modulo 2^64.
  lemma CountWords(n: nat)
    ensures LowCount(n) < TWO32 && HighCount(n) < TWO32
    ensures HighCount(n) * TWO32 + LowCount(n) == 8 * n % TWO64
  {
    var q := 8 * n / TWO32;
    assert 8 * n == q * TWO32 + LowCount(n);
    assert q == (q / TWO32) * TWO32 + HighCount(n);
    assert 8 * n == (q / TWO32) * TWO64 + (HighCount(n) * TWO32 + LowCount(n));
    BigMod(8 * n, q / TWO32, HighCount(n) * TWO32 + LowCount(n));
  }

  lemma BigMod(n: nat, q: nat, r: nat)
    requires n == q * TWO64 + r && r < TWO64
    ensures n % TWO64 == r
  {
  }

  // A padded message: the message, a one bit, as few zeros as make whole blocks with the length.
  lemma PaddedForm(msg: Bytes, length: Bytes)
    requires |length| == 8
    ensures var p := Padded(msg, length);
            && |p| % 64 == 0 && |msg| + 9 <= |p| < |msg| + 73
            && p[..|msg|] == msg && p[|msg|] == 0x80 && p[|p| - 8..] == length
            && forall i | |msg| < i < |p| - 8 :: p[i] == 0
  {
    var z := (119 - |msg| % 64) % 64;
    var p := Padded(msg, length);
    assert |p| == |msg| + 1 + z + 8;
    assert p[|p| - 8..] == length;
  }

  // ----- what a partly filled block buffer stands for -----

  // The state after absorbing msg: a chaining value and the rest of the message in the buffer.
  ghost predicate Absorbed<S>(f: Compress<S>, init: S, msg: Bytes, state: S, buffer: Bytes) {
    |buffer| == 64 && state == Fold(f, init, Whole(msg)) && buffer[..|msg| % 64] == Rest(msg)
  }

  // Data that does not fill the block.
  lemma AbsorbShort<S>(f: Compress<S>, init: S, msg: Bytes, state: S, buffer: Bytes, data: Bytes, now: Bytes)
    requires Absorbed(f, init, msg, state, buffer) && |msg| % 64 + |data| < 64
    requires now == buffer[..|msg| % 64] + data + buffer[|msg| % 64 + |data|..]
    ensures Absorbed(f, init, msg + data, state, now)
  {
    hide Fold;
    var w, r := Whole(msg), Rest(msg);
    assert msg + data == w + (r + data);
    SplitAfter(w, r + data);
    assert now[..|r + data|] == r + data;
  }

  // Data that fills the block exactly.
  lemma AbsorbFill<S>(f: Compress<S>, init: S, msg: Bytes, state: S, buffer: Bytes, data: Bytes, now: Bytes)
    requires Absorbed(f, init, msg, state, buffer) && |msg| % 64 + |data| == 64
    requires now == buffer[..|msg| % 64] + data
    ensures Absorbed(f, init, msg + data, f(state, now), now)
  {
    hide Fold;
    var w, r := Whole(msg), Rest(msg);
    assert msg + data == (w + now) + [];
    SplitAfter(w + now, []);
    FoldBlock(f, init, w, now);
  }
}
