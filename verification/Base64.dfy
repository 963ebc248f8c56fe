/**
 The base64 encoder and decoder of lib/base64.c on wrapping 32-bit accumulators,
 proved against section 4 of RFC 4648, and their round trip.
 */
module Base64 {
  import opened Common

  // The encoder's character table.
  function B64Table(x: bv8): bv8 {
    var row: bv128 :=
      if x < 0x10 then 0x504f4e4d4c4b4a494847464544434241 else
      if x < 0x20 then 0x6665646362615a595857565554535251 else
      if x < 0x30 then 0x767574737271706f6e6d6c6b6a696867 else
      0x2f2b393837363534333231307a797877;
    ((row >> ((x & 0xf) << 3)) & 0xff) as bv8
  }

  // The decoder's table, indexed by the character minus 43; 0xff marks a character outside the alphabet.
  function Map2(x: bv8): bv8 {
    var row: bv128 :=
      if x < 0x10 then 0xff3d3c3b3a3938373635343fffffff3e else
      if x < 0x20 then 0x09080706050403020100ffffffffffff else
      if x < 0x30 then 0x191817161514131211100f0e0d0c0b0a else
      if x < 0x40 then 0x232221201f1e1d1c1b1affffffffffff else
      0x333231302f2e2d2c2b2a292827262524;
    ((row >> ((x & 0xf) << 3)) & 0xff) as bv8
  }

  const EQUALS: bv8 := 0x3d

  predicate InAlphabet(c: bv8) { c - 43 < 80 && Map2(c - 43) != 0xff }

  function SextetOf(c: bv8): bv8 { Map2(c - 43) }

  // Table 1 of RFC 4648.
  function Rfc4648Char(x: bv8): bv8 {
    if x < 26 then 0x41 + x else if x < 52 then 0x61 + (x - 26) else if x < 62 then 0x30 + (x - 52)
    else if x == 62 then 0x2b else 0x2f
  }

  lemma TableIsRfc4648(x: bv8)
    requires x < 64
    ensures B64Table(x) == Rfc4648Char(x)
  {
  }

  lemma TablesInverse(x: bv8)
    requires x < 64
    ensures InAlphabet(B64Table(x)) && SextetOf(B64Table(x)) == x
    ensures B64Table(x) != EQUALS && B64Table(x) != 0
  {
  }

  lemma AlphabetInverse(c: bv8)
    requires InAlphabet(c)
    ensures SextetOf(c) < 64 && B64Table(SextetOf(c)) == c && c != EQUALS && c != 0
  {
  }

  // ----- the encoding of RFC 4648 -----

  // Bytes past the end count as zero bits.
  function ByteOrZero(b: Bytes, i: nat): bv8 { if i < |b| then b[i] else 0 }

  // The r-th sextet of the 24-bit group x, y, z.
  function GroupSextet(r: nat, x: bv8, y: bv8, z: bv8): bv8 {
    if r == 0 then x >> 2
    else if r == 1 then ((x & 3) << 4) | (y >> 4)
    else if r == 2 then ((y & 0xf) << 2) | (z >> 6)
    else z & 0x3f
  }

  function Sextet(b: Bytes, j: nat): bv8 {
    var q := 3 * (j / 4);
    GroupSextet(j % 4, ByteOrZero(b, q), ByteOrZero(b, q + 1), ByteOrZero(b, q + 2))
  }

  // The number of characters before the padding: n bytes times 4/3, rounded up.
  function SextetCount(n: nat): nat { (4 * n + 2) / 3 }

  function Unpadded(b: Bytes): (s: Bytes)
    ensures |s| == SextetCount(|b|)
    ensures forall j | 0 <= j < |s| :: s[j] == B64Table(Sextet(b, j))
  {
    seq(SextetCount(|b|), j requires 0 <= j => B64Table(Sextet(b, j)))
  }

  function Padding(n: nat): (s: Bytes)
    ensures |s| <= 2 && forall i | 0 <= i < |s| :: s[i] == EQUALS
  {
    if n % 3 == 0 then [] else if n % 3 == 1 then [EQUALS, EQUALS] else [EQUALS]
  }

  function Encoded(b: Bytes): Bytes { Unpadded(b) + Padding(|b|) }

  // ----- the decoding -----

  // The characters before the first '=' or NUL.
  function Stop(s: Bytes): (n: nat)
    ensures n <= |s|
    ensures forall i | 0 <= i < n :: s[i] != EQUALS && s[i] != 0
    ensures n < |s| ==> s[n] == EQUALS || s[n] == 0
  {
    if s == [] || s[0] == EQUALS || s[0] == 0 then 0 else 1 + Stop(s[1..])
  }

  // Byte r of a group from its sextets r and r + 1.
  function GroupByte(r: nat, x: bv8, y: bv8): bv8 {
    if r == 0 then (x << 2) | (y >> 4) else if r == 1 then (x << 4) | (y >> 2) else (x << 6) | y
  }

  function DecodedByte(s: Bytes, k: nat): bv8
    requires k < 3 * |s| / 4
  {
    var j := 4 * (k / 3) + k % 3;
    GroupByte(k % 3, SextetOf(s[j]), SextetOf(s[j + 1]))
  }

  function DecodedBytes(s: Bytes): (b: Bytes)
    ensures |b| == 3 * |s| / 4
    ensures forall k | 0 <= k < |b| :: b[k] == DecodedByte(s, k)
  {
    seq(3 * |s| / 4, k requires 0 <= k < 3 * |s| / 4 => DecodedByte(s, k))
  }

  function Decoded(s: Bytes): Option<Bytes> {
    var t := s[..Stop(s)];
    if forall i | 0 <= i < |t| :: InAlphabet(t[i]) then Some(DecodedBytes(t)) else None
  }

  // ----- round trip -----

  lemma GroupRoundTrip(x: bv8, y: bv8, z: bv8)
    ensures GroupByte(0, GroupSextet(0, x, y, z), GroupSextet(1, x, y, z)) == x
    ensures GroupByte(1, GroupSextet(1, x, y, z), GroupSextet(2, x, y, z)) == y
    ensures GroupByte(2, GroupSextet(2, x, y, z), GroupSextet(3, x, y, z)) == z
  {
  }

  lemma SextetBound(b: Bytes, j: nat)
    ensures Sextet(b, j) < 64
  {
  }

  lemma UnpaddedInAlphabet(b: Bytes, j: nat)
    requires j < SextetCount(|b|)
    ensures InAlphabet(Unpadded(b)[j]) && SextetOf(Unpadded(b)[j]) == Sextet(b, j)
    ensures Unpadded(b)[j] != EQUALS && Unpadded(b)[j] != 0
  {
    hide Sextet, B64Table, InAlphabet, SextetOf;
    SextetBound(b, j);
    TablesInverse(Sextet(b, j));
  }

  lemma StopAt(s: Bytes, t: Bytes)
    requires forall i | 0 <= i < |s| :: s[i] != EQUALS && s[i] != 0
    requires t == [] || t[0] == EQUALS || t[0] == 0
    ensures Stop(s + t) == |s|
  {
    assert forall i | 0 <= i < |s| :: (s + t)[i] == s[i];
    assert t != [] ==> (s + t)[|s|] == t[0];
  }

  lemma DecodedByteOfEncoded(b: Bytes, k: nat)
    requires k < |b|
    ensures k < 3 * |Unpadded(b)| / 4 && DecodedByte(Unpadded(b), k) == b[k]
  {
    hide B64Table, InAlphabet, SextetOf, GroupByte, GroupSextet;
    var s := Unpadded(b);
    var q, r := k / 3, k % 3;
    var j := 4 * q + r;
    UnpaddedInAlphabet(b, j);
    UnpaddedInAlphabet(b, j + 1);
    GroupRoundTrip(ByteOrZero(b, 3 * q), ByteOrZero(b, 3 * q + 1), ByteOrZero(b, 3 * q + 2));
    assert j / 4 == q && j % 4 == r && (j + 1) / 4 == q && (j + 1) % 4 == r + 1;
  }

  // Decoding an encoding gives the bytes back, with the padding or with any of it stripped.
  lemma DecodeEncode(b: Bytes, t: Bytes)
    requires t == [] || t[0] == EQUALS || t[0] == 0
    ensures Decoded(Unpadded(b) + t) == Some(b)
  {
    hide Sextet, B64Table, InAlphabet, SextetOf, DecodedByte, Stop;
    var s := Unpadded(b);
    forall j | 0 <= j < |s| ensures s[j] != EQUALS && s[j] != 0 && InAlphabet(s[j]) {
      UnpaddedInAlphabet(b, j);
    }
    StopAt(s, t);
    assert (s + t)[..|s|] == s;
    forall k | 0 <= k < |b| ensures DecodedBytes(s)[k] == b[k] {
      DecodedByteOfEncoded(b, k);
    }
    assert DecodedBytes(s) == b;
  }

  // strip_b64_eq: the string is cut at the first '='.
  function Stripped(s: Bytes): Bytes {
    if s == [] || s[0] == EQUALS then [] else [s[0]] + Stripped(s[1..])
  }

  lemma {:induction false} StrippedPrefix(s: Bytes, t: Bytes)
    requires forall i | 0 <= i < |s| :: s[i] != EQUALS
    requires t == [] || t[0] == EQUALS
    ensures Stripped(s + t) == s
  {
    if s == [] {
      assert s + t == t;
    } else {
      assert (s + t)[1..] == s[1..] + t;
      StrippedPrefix(s[1..], t);
    }
  }

  lemma StripEncoded(b: Bytes)
    ensures Stripped(Encoded(b)) == Unpadded(b)
  {
    hide Sextet, B64Table, InAlphabet;
    var s := Unpadded(b);
    forall j | 0 <= j < |s| ensures s[j] != EQUALS {
      UnpaddedInAlphabet(b, j);
    }
    StrippedPrefix(s, Padding(|b|));
  }

  // ----- the loops -----

  // The six bits of the accumulator above the `shift - 6` lowest ones, as the encoder extracts them.
  function Extract(bits: bv32, shift: nat): bv8
    requires shift <= 32
  {
    (((bits << 6) >> shift) & 0x3f) as bv8
  }

  function Low(bits: bv32): bv8 { (bits & 0xff) as bv8 }
  function Next(bits: bv32): bv8 { ((bits >> 8) & 0xff) as bv8 }
  function Shifted(bits: bv32, x: bv8): bv32 { (bits << 8) + x as bv32 }

  lemma ShiftedBytes(bits: bv32, x: bv8)
    ensures Low(Shifted(bits, x)) == x && Next(Shifted(bits, x)) == Low(bits)
  {
  }

  lemma ExtractFull(bits: bv32, w: bv8)
    ensures Extract(bits, 8) == GroupSextet(0, Low(bits), w, w)
    ensures Extract(bits, 10) == GroupSextet(1, Next(bits), Low(bits), w)
    ensures Extract(bits, 12) == GroupSextet(2, w, Next(bits), Low(bits))
    ensures Extract(bits, 14) == GroupSextet(3, w, w, Next(bits))
  {
  }

  lemma ExtractTail(bits: bv32, w: bv8)
    ensures Extract(bits, 2) == GroupSextet(1, Low(bits), 0, w)
    ensures Extract(bits, 4) == GroupSextet(2, w, Low(bits), 0)
    ensures Extract(bits, 6) == GroupSextet(3, w, w, Low(bits))
  {
  }

  // After i bytes, m characters have been written and `8i - 6m` bits are pending.
  lemma ExtractIsSextet(b: Bytes, i: nat, m: nat, bits: bv32)
    requires 0 < i <= |b| && Low(bits) == b[i - 1] && (i >= 2 ==> Next(bits) == b[i - 2])
    requires 0 < 8 * i - 6 * m <= 14 && (8 * i - 6 * m > 6 || i == |b|)
    ensures Extract(bits, 8 * i - 6 * m) == Sextet(b, m)
  {
    hide Extract, Low, Next, GroupSextet;
    var q := 3 * (m / 4);
    var x, y, z := ByteOrZero(b, q), ByteOrZero(b, q + 1), ByteOrZero(b, q + 2);
    GroupIgnores(x, y, z);
    ExtractFull(bits, x); ExtractFull(bits, y); ExtractFull(bits, z);
    ExtractTail(bits, x); ExtractTail(bits, z);
  }

  lemma GroupIgnores(x: bv8, y: bv8, z: bv8)
    ensures forall v, w :: GroupSextet(0, x, v, w) == GroupSextet(0, x, y, z)
    ensures forall w :: GroupSextet(1, x, y, w) == GroupSextet(1, x, y, z)
    ensures forall v :: GroupSextet(2, v, y, z) == GroupSextet(2, x, y, z)
    ensures forall v, w :: GroupSextet(3, v, w, z) == GroupSextet(3, x, y, z)
  {
  }

  // The characters before the padding.
  method EncodeSextets(input: Bytes, out: array<bv8>) returns (m: nat)
    requires out.Length >= |input| / 3 * 4 + 8
    modifies out
    ensures m == SextetCount(|input|) && m < out.Length && out[..m] == Unpadded(input)
  {
    hide Extract, Low, Next, Shifted, Sextet, B64Table, Unpadded;
    var bits: bv32 := 0;
    var shift, i := 0, 0;
    m := 0;
    ghost var n := |input|;
    while i < |input|
      invariant 0 <= i <= n && shift == 8 * i - 6 * m
      invariant if i == n then -6 < shift <= 0 else if i == 0 then shift == 0 else 0 < shift <= 6
      invariant i >= 1 ==> Low(bits) == input[i - 1]
      invariant m <= SextetCount(n)
      invariant forall j | 0 <= j < m :: out[j] == B64Table(Sextet(input, j))
    {
      ShiftedBytes(bits, input[i]);
      bits := Shifted(bits, input[i]);
      i := i + 1;
      shift := shift + 8;
      // The source tests this condition after each character; it always holds before the first.
      while shift > 6 || (i == |input| && shift > 0)
        invariant shift == 8 * i - 6 * m && -6 < shift <= 14 && (i < n ==> shift > 0)
        invariant m <= SextetCount(n)
        invariant forall j | 0 <= j < m :: out[j] == B64Table(Sextet(input, j))
        decreases shift + 6
      {
        ExtractIsSextet(input, i, m, bits);
        out[m] := B64Table(Extract(bits, shift));
        m := m + 1;
        shift := shift - 6;
      }
    }
  }

  // The padding fills the last group of four characters.
  lemma PaddingFills(n: nat)
    ensures var c, p := SextetCount(n), |Padding(n)|; (c + p) % 4 == 0 && c + p < n / 3 * 4 + 8
    ensures forall m | SextetCount(n) <= m < SextetCount(n) + |Padding(n)| :: m % 4 != 0
  {
    hide SextetCount;
    var q, r := n / 3, n % 3;
    CountOfGroups(n, q, r);
    var c := SextetCount(n);
    forall m | c <= m < c + |Padding(n)| ensures m % 4 != 0 {
      assert m == 4 * q + (m - 4 * q) && 0 < m - 4 * q < 4;
    }
  }

  lemma CountOfGroups(n: nat, q: nat, r: nat)
    requires n == 3 * q + r && r < 3
    ensures SextetCount(n) == 4 * q + if r == 0 then 0 else r + 1
  {
  }

  // The output buffer the callers allocate is large enough, including the terminating NUL.
  method Encode(input: Bytes, out: array<bv8>) returns (len: nat)
    requires out.Length >= |input| / 3 * 4 + 8
    modifies out
    ensures len < out.Length && out[..len] == Encoded(input) && out[len] == 0
  {
    hide Unpadded, SextetCount, Padding;
    PaddingFills(|input|);
    ghost var c, p := SextetCount(|input|), Padding(|input|);
    var m := EncodeSextets(input, out);
    ghost var s := Unpadded(input);
    while m % 4 != 0
      invariant c <= m <= c + |p| && out[..m] == s + p[..m - c]
      decreases c + |p| - m
    {
      out[m] := EQUALS;
      m := m + 1;
    }
    out[m] := 0;
    len := m;
  }

  function LowSextet(v: bv32): bv8 { (v & 0x3f) as bv8 }
  function Accumulate(v: bv32, x: bv8): bv32 { (v << 6) + x as bv32 }
  function EmitByte(v: bv32, shift: nat): bv8
    requires shift <= 32
  {
    ((v >> shift) & 0xff) as bv8
  }

  // Character i completes byte 3i/4 of the output unless it is the first of its group.
  lemma EmitIsGroupByte(v: bv32, x: bv8)
    requires x < 64
    ensures LowSextet(Accumulate(v, x)) == x
    ensures EmitByte(Accumulate(v, x), 4) == GroupByte(0, LowSextet(v), x)
    ensures EmitByte(Accumulate(v, x), 2) == GroupByte(1, LowSextet(v), x)
    ensures EmitByte(Accumulate(v, x), 0) == GroupByte(2, LowSextet(v), x)
  {
  }

  lemma EmitIsDecodedByte(t: Bytes, i: nat, v: bv32)
    requires i < |t| && i % 4 != 0 && SextetOf(t[i]) < 64 && LowSextet(v) == SextetOf(t[i - 1])
    ensures 3 * i / 4 < 3 * |t| / 4
    ensures EmitByte(Accumulate(v, SextetOf(t[i])), 6 - 2 * (i % 4)) == DecodedByte(t, 3 * i / 4)
  {
    hide SextetOf, EmitByte, Accumulate, LowSextet, GroupByte;
    EmitIsGroupByte(v, SextetOf(t[i]));
    var k := 3 * i / 4;
    assert k / 3 == i / 4 && k % 3 == i % 4 - 1;
  }

  lemma BytesSoFar(i: nat, n: nat)
    requires i < n
    ensures 3 * (i + 1) / 4 == 3 * i / 4 + (if i % 4 == 0 then 0 else 1)
    ensures i % 4 != 0 ==> 3 * i / 4 < 3 * n / 4
  {
    var q, r := i / 4, i % 4;
    ThreeQuarters(i, q, r);
    if r < 3 {
      ThreeQuarters(i + 1, q, r + 1);
    } else {
      ThreeQuarters(i + 1, q + 1, 0);
    }
    Monotone(3 * (i + 1), 3 * n);
  }

  lemma ThreeQuarters(i: nat, q: nat, r: nat)
    requires i == 4 * q + r && r < 4
    ensures 3 * i / 4 == 3 * q + (if r == 0 then 0 else r - 1)
  {
  }

  lemma Monotone(a: nat, b: nat)
    requires a <= b
    ensures a / 4 <= b / 4
  {
  }

  // What one more character adds to the accumulator and, but for every fourth, to the output.
  lemma EmitsNext(t: Bytes, i: nat, v: bv32)
    requires i < |t| && InAlphabet(t[i]) && (i > 0 ==> LowSextet(v) == SextetOf(t[i - 1]))
    ensures LowSextet(Accumulate(v, SextetOf(t[i]))) == SextetOf(t[i])
    ensures 3 * (i + 1) / 4 == 3 * i / 4 + (if i % 4 == 0 then 0 else 1)
    ensures i % 4 != 0 ==>
              3 * i / 4 < 3 * |t| / 4
              && EmitByte(Accumulate(v, SextetOf(t[i])), 6 - 2 * (i % 4)) == DecodedByte(t, 3 * i / 4)
  {
    hide SextetOf, InAlphabet, EmitByte, Accumulate, LowSextet, DecodedByte, GroupByte;
    AlphabetInverse(t[i]);
    EmitIsGroupByte(v, SextetOf(t[i]));
    BytesSoFar(i, |t|);
    if i % 4 != 0 {
      EmitIsDecodedByte(t, i, v);
    }
  }

  // The result is -1, with the buffer in an unspecified state, exactly when a character is outside the alphabet.
  method Decode(input: Bytes, out: array<bv8>) returns (len: int)
    requires out.Length > 3 * |input| / 4
    modifies out
    ensures len == -1 <==> Decoded(input).None?
    ensures len != -1 ==> 0 <= len < out.Length && out[..len] == Decoded(input).value && out[len] == 0
  {
    hide SextetOf, InAlphabet, EmitByte, Accumulate, LowSextet, DecodedByte, DecodedBytes, Stop;
    ghost var t := input[..Stop(input)];
    var v: bv32 := 0;
    var i, k := 0, 0;
    while i < |input| && input[i] != 0 && input[i] != EQUALS
      invariant 0 <= i <= |t| && k == 3 * i / 4
      invariant i > 0 ==> LowSextet(v) == SextetOf(t[i - 1])
      invariant forall j | 0 <= j < i :: InAlphabet(t[j])
      invariant forall j | 0 <= j < k :: out[j] == DecodedByte(t, j)
    {
      assert input[i] == t[i];
      if !InAlphabet(input[i]) {
        return -1;
      }
      EmitsNext(t, i, v);
      v := Accumulate(v, SextetOf(input[i]));
      if i % 4 != 0 {
        out[k] := EmitByte(v, 6 - 2 * (i % 4));
        k := k + 1;
      }
      i := i + 1;
    }
    assert i == |t|;
    assert out[..k] == DecodedBytes(t);
    out[k] := 0;
    assert out[..k] == DecodedBytes(t);
    return k;
  }

  // Truncation in place, at the first '=' of the string in the buffer.
  method StripEq(data: array<bv8>)
    modifies data
    ensures CStr(data[..]) == Stripped(CStr(old(data[..])))
  {
    ghost var s := CStr(data[..]);
    var i := 0;
    while i < data.Length && data[i] != 0 && data[i] != EQUALS
      invariant 0 <= i <= |s|
      invariant s == CStr(data[..])
      invariant forall j | 0 <= j < i :: s[j] != EQUALS
    {
      i := i + 1;
    }
    StrippedPrefix(s[..i], s[i..]);
    assert s == s[..i] + s[i..];
    if i < data.Length && data[i] == EQUALS {
      data[i] := 0;
    }
    StrLenUnique(data[..], i);
    assert data[..i] == s[..i];
  }

  // The encoding without padding, as every caller uses it.
  method EncodeStripped(input: Bytes) returns (s: Bytes)
    ensures s == Unpadded(input)
  {
    hide Unpadded, Padding, Stripped;
    var out := new bv8[|input| / 3 * 4 + 8];
    var len := Encode(input, out);
    EncodedText(input);
    ghost var text := Encoded(input);
    assert forall i | 0 <= i < len :: out[i] == text[i];
    StrLenUnique(out[..], len);
    StripEncoded(input);
    StripEq(out);
    s := CStr(out[..]);
  }

  lemma EncodedText(b: Bytes)
    ensures IsCString(Encoded(b))
  {
    hide B64Table, InAlphabet, Sextet;
    var s := Unpadded(b);
    forall j | 0 <= j < |s| ensures s[j] != 0 {
      UnpaddedInAlphabet(b, j);
    }
  }

  // is_base64 on one character
  predicate Base64Char(c: bv8) {
    0x30 <= c <= 0x39 || 0x41 <= c <= 0x5a || 0x61 <= c <= 0x7a || c == 0x2f || c == 0x2b || c == EQUALS
  }

  lemma Rfc4648Chars(x: bv8)
    requires x < 64
    ensures Base64Char(Rfc4648Char(x)) && Rfc4648Char(x) != EQUALS
  {
  }

  lemma UnpaddedChars(b: Bytes)
    ensures forall j | 0 <= j < |Unpadded(b)| :: Base64Char(Unpadded(b)[j])
  {
    hide Sextet, B64Table, Base64Char, Rfc4648Char;
    forall j | 0 <= j < |Unpadded(b)| ensures Base64Char(Unpadded(b)[j]) {
      SextetBound(b, j);
      TableIsRfc4648(Sextet(b, j));
      Rfc4648Chars(Sextet(b, j));
    }
  }
}
