/** The fields of an SPA message, decimal numbers and colon-separated texts. */
module SpaFields {
  import opened Common
  import opened SpaMessage

  const COLON: bv8 := 0x3a

  const COMMAND_MSG := 0
  const SERVICE_ACCESS_MSG := 1
  const CLIENT_TIMEOUT_SERVICE_ACCESS_MSG := 2
  const ACCESS_MSG := 3
  const NAT_ACCESS_MSG := 4
  const CLIENT_TIMEOUT_ACCESS_MSG := 5
  const CLIENT_TIMEOUT_NAT_ACCESS_MSG := 6
  const LOCAL_NAT_ACCESS_MSG := 7
  const CLIENT_TIMEOUT_LOCAL_NAT_ACCESS_MSG := 8
  const LAST_MSG_TYPE := 9

  const RAND_VAL_SIZE := 16
  const TMP_BUF_SIZE := 1024
  const MAX_MSG_SIZE := 1500

  // Strings that have not been set are empty.
  datatype Fields = Fields(
    rand: Bytes,
    username: Bytes,
    timestamp: int,
    version: Bytes,
    msgType: int,
    message: Bytes,
    natAccess: Option<Bytes>,
    serverAuth: Option<Bytes>,
    timeout: int)

  const EMPTY := Fields([], [], 0, [], 0, [], None, None, 0)

  predicate NatType(t: int) {
    || t == NAT_ACCESS_MSG || t == LOCAL_NAT_ACCESS_MSG
    || t == CLIENT_TIMEOUT_NAT_ACCESS_MSG || t == CLIENT_TIMEOUT_LOCAL_NAT_ACCESS_MSG
  }

  predicate TimeoutType(t: int) {
    || t == CLIENT_TIMEOUT_ACCESS_MSG
    || t == CLIENT_TIMEOUT_NAT_ACCESS_MSG || t == CLIENT_TIMEOUT_LOCAL_NAT_ACCESS_MSG
  }

  predicate ValidMessage(aton: InetAton, t: int, message: Bytes) {
    if t == COMMAND_MSG then CommandMessage(aton, message)
    else if t == SERVICE_ACCESS_MSG || t == CLIENT_TIMEOUT_SERVICE_ACCESS_MSG then ServiceMessage(aton, message)
    else AccessMessage(aton, message)
  }

  method CheckMessage(aton: InetAton, t: int, message: Bytes) returns (ok: bool)
    ensures ok == ValidMessage(aton, t, message)
  {
    if t == COMMAND_MSG {
      ok := ValidateCmdMsg(aton, message);
    } else if t == SERVICE_ACCESS_MSG || t == CLIENT_TIMEOUT_SERVICE_ACCESS_MSG {
      ok := ValidateServiceAccessMsg(aton, message);
    } else {
      ok := ValidateAccessMsg(aton, message);
    }
  }

  // The message type that goes with a timeout.
  function TypeFor(t: int, timeout: int): int {
    if timeout > 0 then
      if t == ACCESS_MSG then CLIENT_TIMEOUT_ACCESS_MSG
      else if t == NAT_ACCESS_MSG then CLIENT_TIMEOUT_NAT_ACCESS_MSG
      else if t == LOCAL_NAT_ACCESS_MSG then CLIENT_TIMEOUT_LOCAL_NAT_ACCESS_MSG
      else t
    else
      if t == CLIENT_TIMEOUT_ACCESS_MSG then ACCESS_MSG
      else if t == CLIENT_TIMEOUT_NAT_ACCESS_MSG then NAT_ACCESS_MSG
      else if t == CLIENT_TIMEOUT_LOCAL_NAT_ACCESS_MSG then LOCAL_NAT_ACCESS_MSG
      else t
  }

  // Apart from commands and services, a type is a timeout type exactly when there is a timeout.
  lemma TypeForTimeout(t: int, timeout: int)
    requires 0 <= t < LAST_MSG_TYPE
    ensures TypeFor(TypeFor(t, timeout), timeout) == TypeFor(t, timeout)
    ensures t >= ACCESS_MSG ==> (TimeoutType(TypeFor(t, timeout)) <==> timeout > 0)
    ensures t < ACCESS_MSG ==> TypeFor(t, timeout) == t
    ensures t in {3, 5} ==> TypeFor(t, timeout) == if timeout > 0 then 5 else 3
    ensures t in {4, 6} ==> TypeFor(t, timeout) == if timeout > 0 then 6 else 4
    ensures t in {7, 8} ==> TypeFor(t, timeout) == if timeout > 0 then 8 else 7
    ensures NatType(TypeFor(t, timeout)) <==> NatType(t)
  {
  }

  // A printable character other than the fifteen that are not allowed.
  predicate UsernameChar(c: bv8) {
    && 0x20 <= c <= 0x7e
    && c !in [0x22, 0x2f, 0x5c, 0x5b, 0x5d, 0x3a, 0x3b, 0x7c, 0x3d, 0x2c, 0x2b, 0x2a, 0x3f, 0x3c, 0x3e]
  }

  predicate IsAlnum(c: bv8) { 0x30 <= c <= 0x39 || 0x41 <= c <= 0x5a || 0x61 <= c <= 0x7a }

  // The test of the code.
  predicate RefusedChar(c: bv8) {
    && !IsAlnum(c)
    && (|| c < 0x20 || c > 0x7e
        || c == 0x22 || c == 0x2f || c == 0x5c || c == 0x5b || c == 0x5d || c == 0x3a || c == 0x3b || c == 0x7c
        || c == 0x3d || c == 0x2c || c == 0x2b || c == 0x2a || c == 0x3f || c == 0x3c || c == 0x3e)
  }

  // No letter or digit is among the fifteen.
  lemma RefusedExactly(c: bv8)
    ensures RefusedChar(c) <==> !UsernameChar(c)
  {
  }

  const MAX_USERNAME_SIZE := 64

  // Only the first 64 characters are looked at.
  predicate ValidUsername(s: Bytes) {
    s != [] && forall i | 0 <= i < |s| && i < MAX_USERNAME_SIZE :: UsernameChar(s[i])
  }

  method ValidateUsername(s: Bytes) returns (ok: bool)
    ensures ok == ValidUsername(s)
  {
    hide UsernameChar, RefusedChar;
    if s == [] {
      return false;
    }
    var i := 0;
    while i < |s| && i < MAX_USERNAME_SIZE
      invariant 0 <= i <= |s|
      invariant forall j | 0 <= j < i :: UsernameChar(s[j])
    {
      RefusedExactly(s[i]);
      if RefusedChar(s[i]) {
        return false;
      }
      i := i + 1;
    }
    return true;
  }

  // ----- numbers -----

  function Digit(d: nat): bv8
    requires d < 10
  {
    (0x30 + d) as bv8
  }

  lemma DigitIs(d: nat)
    requires d < 10
    ensures IsDigit(Digit(d)) && DigitValue(Digit(d)) == d
  {
  }

  // A number in decimal, as printf writes it.
  function Dec(n: nat): (s: Bytes)
    ensures |s| > 0
  {
    if n < 10 then [Digit(n)] else Dec(n / 10) + [Digit(n % 10)]
  }

  lemma {:induction false} DecimalOfDec(n: nat)
    ensures AllDigits(Dec(n)) && Decimal(Dec(n)) == n
  {
    hide Digit, IsDigit, DigitValue;
    DigitIs(n % 10);
    var s := Dec(n);
    if n < 10 {
      assert s[..|s| - 1] == [];
    } else {
      DecimalOfDec(n / 10);
      assert s[..|s| - 1] == Dec(n / 10);
    }
  }

  // A number is printed in base ten, without leading zeros.
  lemma {:induction false} DecIsCanonical(n: nat)
    ensures AllDigits(Dec(n)) && Decimal(Dec(n)) == n && (|Dec(n)| > 1 ==> Dec(n)[0] != 0x30)
  {
    DecimalOfDec(n);
    if n >= 10 {
      DecIsCanonical(n / 10);
      if n < 100 {
        DigitIs(n / 10);
      }
    }
  }

  lemma BaseTen()
    ensures Decimal([0x36, 0x35, 0x35, 0x33, 0x35]) == 65535
  {
    var a: Bytes := [0x36];
    assert Decimal(a) == 6 by { assert a[..0] == []; }
    DecimalSnoc(a, 0x35);
    DecimalSnoc(a + [0x35], 0x35);
    DecimalSnoc(a + [0x35] + [0x35], 0x33);
    DecimalSnoc(a + [0x35] + [0x35] + [0x33], 0x35);
    assert [0x36, 0x35, 0x35, 0x33, 0x35] == a + [0x35] + [0x35] + [0x33] + [0x35];
  }

  lemma DecimalSnoc(s: Bytes, c: bv8)
    requires AllDigits(s) && IsDigit(c)
    ensures AllDigits(s + [c]) && Decimal(s + [c]) == 10 * Decimal(s) + (c as nat - 0x30)
  {
    assert (s + [c])[..|s|] == s;
  }

  function Pow10(k: nat): (p: nat)
    ensures p > 0
  {
    if k == 0 then 1 else 10 * Pow10(k - 1)
  }

  lemma {:induction false} DecLength(n: nat, k: nat)
    requires k > 0
    ensures |Dec(n)| <= k <==> n < Pow10(k)
  {
    hide Digit;
    assert Pow10(k) == 10 * Pow10(k - 1);
    if n >= 10 && k > 1 {
      DecLength(n / 10, k - 1);
    }
  }

  // Ports in decimal are 1 to 65535.
  lemma PortsExactly(n: nat)
    ensures PortText(Dec(n)) <==> 1 <= n <= 65535
  {
    hide Dec, Decimal;
    DecimalOfDec(n);
    DecLength(n, 5);
    PowersOfTen();
  }

  // tcp/ and udp/ in front of a port
  lemma SpecsExactly(n: nat)
    ensures ProtoPort([0x74, 0x63, 0x70, 0x2f] + Dec(n)) <==> 1 <= n <= 65535
    ensures ProtoPort([0x75, 0x64, 0x70, 0x2f] + Dec(n)) <==> 1 <= n <= 65535
  {
    hide Dec, PortText;
    PortsExactly(n);
    var t: Bytes := [0x74, 0x63, 0x70, 0x2f];
    var u: Bytes := [0x75, 0x64, 0x70, 0x2f];
    assert (t + Dec(n))[..3] == TCP && (t + Dec(n))[4..] == Dec(n);
    assert (u + Dec(n))[..3] == UDP && (u + Dec(n))[4..] == Dec(n);
  }

  // Services have up to eleven digits, and the low 32 bits of their number are not zero.
  lemma ServicesExactly(n: nat)
    ensures ServiceId(Dec(n)) <==> n < 100_000_000_000 && n % 0x1_0000_0000 != 0
  {
    hide Dec, Decimal;
    DecimalOfDec(n);
    DecLength(n, 11);
    PowersOfTen();
  }

  lemma PowersOfTen()
    ensures Pow10(5) == 100_000 && Pow10(11) == 100_000_000_000
  {
    assert Pow10(5) == 100_000;
    assert Pow10(8) == 100_000_000;
  }

  predicate IsSpace(c: bv8) { c in [0x09, 0x0a, 0x0b, 0x0c, 0x0d, 0x20] }

  function Spaces(s: Bytes): (k: nat)
    ensures k <= |s|
  {
    if s == [] || !IsSpace(s[0]) then 0 else 1 + Spaces(s[1..])
  }

  function DigitRun(s: Bytes): (k: nat)
    ensures k <= |s| && AllDigits(s[..k])
  {
    if s == [] || !IsDigit(s[0]) then 0 else 1 + DigitRun(s[1..])
  }

  function SignedNumber(r: Bytes): int {
    var q := if r != [] && (r[0] == 0x2d || r[0] == 0x2b) then r[1..] else r;
    var v: int := Decimal(q[..DigitRun(q)]);
    if r != [] && r[0] == 0x2d then -v else v
  }

  // strtol in base 10: spaces, a sign, and as many digits as there are.
  function StrTol(s: Bytes): int { SignedNumber(s[Spaces(s)..]) }

  lemma {:induction false} DigitRunAll(s: Bytes)
    requires AllDigits(s)
    ensures DigitRun(s) == |s|
  {
    if s != [] {
      assert AllDigits(s[1..]);
      DigitRunAll(s[1..]);
    }
  }

  lemma StrTolDigits(s: Bytes)
    requires AllDigits(s) && s != []
    ensures StrTol(s) == Decimal(s)
  {
    hide Decimal;
    assert Spaces(s) == 0;
    assert s[0..] == s;
    DigitRunAll(s);
    assert s[..|s|] == s;
  }

  // The number of a text is that of the digits after spaces and a sign, whatever follows them.
  lemma StrTolExactly(spaces: Bytes, sign: Bytes, digits: Bytes, rest: Bytes)
    requires forall i | 0 <= i < |spaces| :: IsSpace(spaces[i])
    requires sign == [] || sign == [0x2b] || sign == [0x2d]
    requires AllDigits(digits) && digits != [] && (rest == [] || !IsDigit(rest[0]))
    ensures sign != [0x2d] ==> StrTol(spaces + sign + digits + rest) == Decimal(digits)
    ensures sign == [0x2d] ==> StrTol(spaces + sign + digits + rest) == -(Decimal(digits) as int)
  {
    hide Decimal, Spaces, IsDigit, IsSpace, SignedNumber;
    var r := sign + (digits + rest);
    NumberStart(digits[0]);
    SpacesAre(spaces, r);
    assert spaces + sign + digits + rest == spaces + r;
    assert (spaces + r)[|spaces|..] == r;
    SignedIs(sign, digits, rest);
  }

  lemma SignedIs(sign: Bytes, digits: Bytes, rest: Bytes)
    requires sign == [] || sign == [0x2b] || sign == [0x2d]
    requires AllDigits(digits) && digits != [] && (rest == [] || !IsDigit(rest[0]))
    ensures sign != [0x2d] ==> SignedNumber(sign + (digits + rest)) == Decimal(digits)
    ensures sign == [0x2d] ==> SignedNumber(sign + (digits + rest)) == -(Decimal(digits) as int)
  {
    hide Decimal, DigitRun, IsDigit;
    var q := digits + rest;
    NumberStart(digits[0]);
    DigitRunIs(digits, rest);
    assert q[..|digits|] == digits;
    if sign == [] {
      assert sign + q == q;
    } else {
      assert (sign + q)[1..] == q;
    }
  }

  lemma NumberStart(c: bv8)
    requires IsDigit(c)
    ensures !IsSpace(c) && c != 0x2d && c != 0x2b && !IsSpace(0x2d) && !IsSpace(0x2b)
  {
  }

  lemma {:induction false} SpacesAre(spaces: Bytes, r: Bytes)
    requires (forall i | 0 <= i < |spaces| :: IsSpace(spaces[i])) && r != [] && !IsSpace(r[0])
    ensures Spaces(spaces + r) == |spaces|
  {
    hide IsSpace;
    if spaces == [] {
      assert spaces + r == r;
    } else {
      assert (spaces + r)[1..] == spaces[1..] + r;
      SpacesAre(spaces[1..], r);
    }
  }

  lemma {:induction false} DigitRunIs(digits: Bytes, rest: Bytes)
    requires AllDigits(digits) && (rest == [] || !IsDigit(rest[0]))
    ensures DigitRun(digits + rest) == |digits|
  {
    hide IsDigit;
    if digits == [] {
      assert digits + rest == rest;
    } else {
      assert (digits + rest)[1..] == digits[1..] + rest;
      DigitRunIs(digits[1..], rest);
    }
  }

  const TWO63 := 0x8000_0000_0000_0000

  // The low 32 bits as a signed number.
  function ToInt32(v: int): (r: int)
    ensures -TWO31 <= r < TWO31
  {
    (v + TWO31) % TWO32 - TWO31
  }

  // strtol_wrapper: the number within bounds; a negative maximum is none.
  function Bounded(s: Bytes, min: int, max: int): Option<int> {
    var v := StrTol(s);
    var w := ToInt32(v);
    if v >= TWO63 || v < -TWO63 || w < min || (max >= 0 && w > max) then None else Some(w)
  }

  // The result is the number a 64-bit long can hold, cut to the int with the same low 32 bits, if
  // that is within the bounds.
  lemma BoundedExactly(s: Bytes, min: int, max: int, w: int)
    ensures Bounded(s, min, max) == Some(w) <==>
              var v := StrTol(s);
              && -0x8000_0000_0000_0000 <= v <= 0x7fff_ffff_ffff_ffff
              && -0x8000_0000 <= w <= 0x7fff_ffff && (v - w) % 0x1_0000_0000 == 0
              && min <= w && (max >= 0 ==> w <= max)
  {
    hide StrTol;
    if -TWO31 <= w < TWO31 {
      SameLowBits(StrTol(s), w);
    }
  }

  lemma SameLowBits(v: int, w: int)
    requires -TWO31 <= w < TWO31
    ensures ToInt32(v) == w <==> (v - w) % TWO32 == 0
  {
    var u := v + TWO31;
    var x := w + TWO31;
    assert u == TWO32 * (u / TWO32) + u % TWO32;
    assert v - w == u - x;
    if u % TWO32 == x {
      assert v - w == TWO32 * (u / TWO32);
    }
  }

  // A printed number comes back exactly when it is below 2^31 and within the bounds.
  lemma BoundedDec(n: nat, max: int)
    requires n < TWO32 && max < TWO31
    ensures Bounded(Dec(n), 0, max) == if n < TWO31 && (max >= 0 ==> n <= max) then Some(n) else None
  {
    hide StrTol, Decimal, Dec;
    DecimalOfDec(n);
    StrTolDigits(Dec(n));
    Int32Of(n);
  }

  lemma Int32Of(n: nat)
    requires n < TWO32
    ensures ToInt32(n) == if n < TWO31 then n else n - TWO32
  {
  }

  // ----- texts with separators -----

  function Join(parts: seq<Bytes>): Bytes {
    if |parts| == 0 then [] else if |parts| == 1 then parts[0] else parts[0] + [COLON] + Join(parts[1..])
  }

  predicate NoColon(s: Bytes) { COLON !in s }

  // The text after the first t characters and a separator; nothing is left past the end.
  function Advance(s: Bytes, t: nat): Bytes { if t < |s| then s[t + 1..] else [] }

  lemma JoinStep(parts: seq<Bytes>)
    requires |parts| > 0 && NoColon(parts[0])
    ensures Find(Join(parts), COLON) == |parts[0]|
    ensures Join(parts)[..|parts[0]|] == parts[0]
    ensures Advance(Join(parts), |parts[0]|) == Join(parts[1..])
  {
    hide Find;
    var s := Join(parts);
    if |parts| > 1 {
      assert s == parts[0] + ([COLON] + Join(parts[1..]));
    } else {
      assert parts[1..] == [];
    }
    assert s[..|parts[0]|] == parts[0];
    forall i | 0 <= i < |parts[0]| ensures s[i] != COLON {
      assert s[i] == parts[0][i];
    }
    FindIs(s, COLON, |parts[0]|);
  }

  lemma {:induction false} JoinSnoc(parts: seq<Bytes>, last: Bytes)
    requires |parts| > 0
    ensures Join(parts + [last]) == Join(parts) + [COLON] + last
  {
    var all := parts + [last];
    assert all[1..] == parts[1..] + [last];
    if |parts| == 1 {
      assert all[1..] == [last];
    } else {
      JoinSnoc(parts[1..], last);
    }
  }
}
