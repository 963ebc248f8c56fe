/**
 The message validators of lib/fko_message.c and the IPv4 check of common/fko_util.c.
 Each walks the text with a cursor and counters and is proved to accept exactly a
 language given by a grammar. inet_aton is a parameter.
 */
module SpaMessage {
  import opened Common

  const COMMA: bv8 := 0x2c
  const DOT: bv8 := 0x2e
  const SLASH: bv8 := 0x2f

  const MAX_MESSAGE_SIZE := 256
  const MAX_CMD_LEN := 1400
  const MAX_IPV4_STR_LEN := 16
  const MIN_IPV4_STR_LEN := 7
  const MAX_PORT_STR_LEN := 5
  const MAX_SERVICE_ID_STR_LEN := 11
  const MAX_PORT := 65535

  type InetAton = Bytes -> bool

  // "tcp" and "udp", "icmp" and "none"
  const TCP: Bytes := [0x74, 0x63, 0x70]
  const UDP: Bytes := [0x75, 0x64, 0x70]
  const ICMP: Bytes := [0x69, 0x63, 0x6d, 0x70]
  const NONE: Bytes := [0x6e, 0x6f, 0x6e, 0x65]

  predicate IsDigit(c: bv8) { 0x30 <= c <= 0x39 }

  predicate AllDigits(s: Bytes) { forall i | 0 <= i < |s| :: IsDigit(s[i]) }

  function DigitValue(c: bv8): nat
    requires IsDigit(c)
  {
    c as nat - 0x30
  }

  // The number a run of digits denotes, as strtol and strtoul read it.
  function Decimal(s: Bytes): nat
    requires AllDigits(s)
  {
    if s == [] then 0 else Decimal(s[..|s| - 1]) * 10 + DigitValue(s[|s| - 1])
  }

  // The index of the first c, or the length.
  function Find(s: Bytes, c: bv8): (k: nat)
    ensures k <= |s| && (k < |s| ==> s[k] == c)
    ensures forall i | 0 <= i < k :: s[i] != c
  {
    if s == [] || s[0] == c then 0 else 1 + Find(s[1..], c)
  }

  lemma FindIs(s: Bytes, c: bv8, k: nat)
    requires k <= |s| && (k < |s| ==> s[k] == c) && forall i | 0 <= i < k :: s[i] != c
    ensures Find(s, c) == k
  {
  }

  // strchr: where c first occurs at or after from.
  method StrChr(s: Bytes, from: nat, c: bv8) returns (k: nat)
    requires from <= |s|
    ensures k == from + Find(s[from..], c)
  {
    k := from;
    while k < |s| && s[k] != c
      invariant from <= k <= |s|
      invariant forall i | from <= i < k :: s[i] != c
    {
      k := k + 1;
    }
    FindIs(s[from..], c, k - from);
  }

  // ----- IPv4 addresses -----

  function Count(s: Bytes, c: bv8): nat {
    if s == [] then 0 else Count(s[..|s| - 1], c) + if s[|s| - 1] == c then 1 else 0
  }

  predicate DigitsAndDots(s: Bytes) { forall i | 0 <= i < |s| :: IsDigit(s[i]) || s[i] == DOT }

  predicate ValidIp(aton: InetAton, ip: Bytes) {
    && MIN_IPV4_STR_LEN <= |ip| < MAX_IPV4_STR_LEN
    && DigitsAndDots(ip)
    && Count(ip, DOT) == 3
    && aton(ip)
  }

  // Four runs of digits with dots between them.
  predicate Dotted(s: Bytes, a: Bytes, b: Bytes, c: Bytes, d: Bytes) {
    && AllDigits(a) && AllDigits(b) && AllDigits(c) && AllDigits(d)
    && s == a + [DOT] + b + [DOT] + c + [DOT] + d
  }

  lemma {:induction false} CountAppend(s: Bytes, t: Bytes, x: bv8)
    ensures Count(s + t, x) == Count(s, x) + Count(t, x)
  {
    if t == [] {
      assert s + t == s;
    } else {
      assert (s + t)[..|s + t| - 1] == s + t[..|t| - 1];
      CountAppend(s, t[..|t| - 1], x);
    }
  }

  lemma {:induction false} NoDots(s: Bytes)
    requires DigitsAndDots(s)
    ensures Count(s, DOT) == 0 <==> AllDigits(s)
  {
    if s != [] {
      var n := |s| - 1;
      NoDots(s[..n]);
      assert AllDigits(s) <==> AllDigits(s[..n]) && IsDigit(s[n]) by {
        assert forall i | 0 <= i < n :: s[i] == s[..n][i];
      }
    }
  }

  // The text before the last dot and the digits after it.
  lemma {:induction false} LastDot(s: Bytes) returns (t: Bytes, d: Bytes)
    requires DigitsAndDots(s) && Count(s, DOT) > 0
    ensures s == t + [DOT] + d && AllDigits(d) && DigitsAndDots(t) && Count(t, DOT) == Count(s, DOT) - 1
  {
    var n := |s| - 1;
    if s[n] == DOT {
      t, d := s[..n], [];
    } else {
      t, d := LastDot(s[..n]);
      d := d + [s[n]];
      assert s == s[..n] + [s[n]];
    }
  }

  // An address is four runs of digits of 7 to 15 characters in all, if inet_aton accepts it.
  lemma AddressExactly(aton: InetAton, s: Bytes)
    ensures ValidIp(aton, s) <==> 7 <= |s| <= 15 && aton(s) && exists a, b, c, d :: Dotted(s, a, b, c, d)
  {
    hide Count, IsDigit;
    if ValidIp(aton, s) {
      var t, d := LastDot(s);
      var u, c := LastDot(t);
      var a, b := LastDot(u);
      NoDots(a);
      assert Dotted(s, a, b, c, d);
    }
    forall a, b, c, d | Dotted(s, a, b, c, d) ensures DigitsAndDots(s) && Count(s, DOT) == 3 {
      DottedCounts(s, a, b, c, d);
    }
  }

  lemma DottedCounts(s: Bytes, a: Bytes, b: Bytes, c: Bytes, d: Bytes)
    requires Dotted(s, a, b, c, d)
    ensures DigitsAndDots(s) && Count(s, DOT) == 3
  {
    hide Count, IsDigit;
    NoDots(a);
    NoDots(b);
    NoDots(c);
    NoDots(d);
    OneDot();
    CountAppend(a + [DOT] + b + [DOT] + c + [DOT], d, DOT);
    CountAppend(a + [DOT] + b + [DOT] + c, [DOT], DOT);
    CountAppend(a + [DOT] + b + [DOT], c, DOT);
    CountAppend(a + [DOT] + b, [DOT], DOT);
    CountAppend(a + [DOT], b, DOT);
    CountAppend(a, [DOT], DOT);
  }

  lemma OneDot()
    ensures Count([DOT], DOT) == 1
  {
    assert [DOT][..0] == [];
    assert Count([], DOT) == 0;
  }

  method IsValidIpv4Addr(aton: InetAton, ip: Bytes) returns (ok: bool)
    ensures ok == ValidIp(aton, ip)
  {
    hide IsDigit;
    var n, dots := 0, 0;
    ok := true;
    while n < |ip|
      invariant 0 <= n <= |ip| && n < MAX_IPV4_STR_LEN
      invariant ok && DigitsAndDots(ip[..n]) && dots == Count(ip[..n], DOT)
    {
      if n + 1 >= MAX_IPV4_STR_LEN {
        return false;
      }
      assert ip[..n + 1][..n] == ip[..n];
      if ip[n] == DOT {
        dots := dots + 1;
      } else if !IsDigit(ip[n]) {
        assert !DigitsAndDots(ip);
        return false;
      }
      n := n + 1;
    }
    assert ip[..n] == ip;
    return n >= MIN_IPV4_STR_LEN && dots == 3 && aton(ip);
  }

  // The text before the first comma is an address.
  method HaveAllowIp(aton: InetAton, msg: Bytes) returns (ok: bool)
    ensures ok == ValidIp(aton, msg[..Find(msg, COMMA)])
  {
    hide IsDigit, Count, Find;
    var ipStr := new bv8[MAX_IPV4_STR_LEN];
    var n := 0;
    while n < |msg| && msg[n] != COMMA
      invariant 0 <= n <= |msg| && n < MAX_IPV4_STR_LEN && n <= Find(msg, COMMA)
      invariant ipStr[..n] == msg[..n]
    {
      ipStr[n] := msg[n];
      if n + 1 >= MAX_IPV4_STR_LEN {
        return false;
      }
      if msg[n] != DOT && !IsDigit(msg[n]) {
        assert !DigitsAndDots(msg[..Find(msg, COMMA)]) by {
          assert msg[..Find(msg, COMMA)][n] == msg[n];
        }
        return false;
      }
      n := n + 1;
    }
    assert n == Find(msg, COMMA);
    ok := IsValidIpv4Addr(aton, ipStr[..n]);
  }

  // ----- numbers -----

  predicate PortText(s: Bytes) {
    1 <= |s| <= MAX_PORT_STR_LEN && AllDigits(s) && 1 <= Decimal(s) <= MAX_PORT
  }

  // The number is kept in 32 bits, so that a multiple of 2^32 counts as zero.
  predicate ServiceId(s: Bytes) {
    1 <= |s| <= MAX_SERVICE_ID_STR_LEN && AllDigits(s) && Decimal(s) % 0x1_0000_0000 != 0
  }

  // The digits up to a comma or the end, if there are from one to max of them and nothing else.
  method ReadDigits(msg: Bytes, from: nat, max: nat) returns (k: nat, ok: bool)
    requires from <= |msg|
    ensures k <= |msg| - from
    ensures var s := msg[from..][..Find(msg[from..], COMMA)];
            && ok == (1 <= |s| <= max && AllDigits(s))
            && (ok ==> k == |s|)
  {
    hide IsDigit, Find;
    var t := msg[from..];
    k := 0;
    if |t| == 0 || !IsDigit(t[0]) {
      assert !(|t| > 0 && Find(t, COMMA) > 0 && IsDigit(t[..Find(t, COMMA)][0]));
      return 0, false;
    }
    while k < |t| && t[k] != COMMA
      invariant 0 <= k <= |t| && k <= max && k <= Find(t, COMMA) && AllDigits(t[..k])
    {
      if !IsDigit(t[k]) || k + 1 > max {
        assert t[..Find(t, COMMA)][k] == t[k];
        return 0, false;
      }
      k := k + 1;
    }
    assert k == Find(t, COMMA);
    ok := k > 0;
  }

  method HavePort(msg: Bytes, from: nat) returns (ok: bool)
    requires from <= |msg|
    ensures ok == (|msg| - from < MAX_MESSAGE_SIZE && PortText(msg[from..][..Find(msg[from..], COMMA)]))
  {
    hide Decimal, Find, AllDigits;
    if |msg| - from >= MAX_MESSAGE_SIZE {
      return false;
    }
    var k;
    k, ok := ReadDigits(msg, from, MAX_PORT_STR_LEN);
    if ok {
      var port := Decimal(msg[from..][..k]);
      ok := 1 <= port <= MAX_PORT;
    }
  }

  method HaveServiceId(msg: Bytes, from: nat) returns (ok: bool)
    requires from <= |msg|
    ensures ok == (|msg| - from < MAX_MESSAGE_SIZE && ServiceId(msg[from..][..Find(msg[from..], COMMA)]))
  {
    hide Decimal, Find, AllDigits;
    if |msg| - from >= MAX_MESSAGE_SIZE {
      return false;
    }
    var k;
    k, ok := ReadDigits(msg, from, MAX_SERVICE_ID_STR_LEN);
    if ok {
      var id := Decimal(msg[from..][..k]) % 0x1_0000_0000;
      ok := id >= 1;
    }
  }

  // ----- access messages -----

  // tcp/port or udp/port
  predicate ProtoPort(s: Bytes) {
    |s| > 4 && (s[..3] == TCP || s[..3] == UDP) && s[3] == SLASH && PortText(s[4..])
  }

  predicate StartsWith(s: Bytes, from: nat, p: Bytes)
    requires from <= |s|
  {
    from + |p| <= |s| && s[from..from + |p|] == p
  }

  // icmp and none pass the first test and always fail the second, whose limit is four characters.
  method ValidateProtoPortSpec(msg: Bytes, from: nat) returns (ok: bool)
    requires from <= |msg|
    ensures ok == (|msg| - from < MAX_MESSAGE_SIZE && ProtoPort(msg[from..][..Find(msg[from..], COMMA)]))
  {
    hide PortText, Find, StartsWith, ProtoPort;
    if |msg| - from >= MAX_MESSAGE_SIZE {
      return false;
    }
    if !StartsWith(msg, from, TCP) && !StartsWith(msg, from, UDP)
       && !StartsWith(msg, from, ICMP) && !StartsWith(msg, from, NONE)
    {
      StartsShift(msg, from, TCP);
      StartsShift(msg, from, UDP);
      NotProtoPort(msg[from..]);
      return false;
    }
    StartsShift(msg, from, TCP);
    StartsShift(msg, from, UDP);
    StartsShift(msg, from, ICMP);
    StartsShift(msg, from, NONE);
    var k := StrChr(msg, from, SLASH);
    if k == |msg| || 1 + (k - from) > 4 {
      NoSlash(msg[from..]);
      return false;
    }
    ok := HavePort(msg, k + 1);
    SlashSplits(msg[from..]);
    assert msg[from..][4..] == msg[from + 4..];
  }

  lemma StartsShift(s: Bytes, from: nat, p: Bytes)
    requires from <= |s|
    ensures StartsWith(s, from, p) == StartsWith(s[from..], 0, p)
  {
    if from + |p| <= |s| {
      assert s[from..][0..|p|] == s[from..from + |p|];
    }
  }

  lemma NotProtoPort(t: Bytes)
    requires !StartsWith(t, 0, TCP) && !StartsWith(t, 0, UDP)
    ensures !ProtoPort(t[..Find(t, COMMA)])
  {
    hide Find, PortText;
    var s := t[..Find(t, COMMA)];
    if |s| > 4 {
      assert s[..3] == t[0..3];
    }
  }

  lemma NoSlash(t: Bytes)
    requires Find(t, SLASH) == |t| || Find(t, SLASH) > 3
    ensures !ProtoPort(t[..Find(t, COMMA)])
  {
    hide Find, PortText;
    var s := t[..Find(t, COMMA)];
    if |s| > 4 {
      assert s[3] == t[3] != SLASH;
    }
  }

  // A protocol of up to four characters before a slash is tcp or udp.
  lemma SlashSplits(t: Bytes)
    requires Find(t, SLASH) < |t| && Find(t, SLASH) <= 3
    requires StartsWith(t, 0, TCP) || StartsWith(t, 0, UDP) || StartsWith(t, 0, ICMP) || StartsWith(t, 0, NONE)
    ensures Find(t, SLASH) == 3
    ensures var s := t[..Find(t, COMMA)];
            ProtoPort(s) <==> PortText(t[4..][..Find(t[4..], COMMA)])
  {
    hide Find, PortText, StartsWith, ProtoPort;
    if StartsWith(t, 0, ICMP) {
      LettersFirst(t, ICMP);
    } else if StartsWith(t, 0, NONE) {
      LettersFirst(t, NONE);
    } else {
      var p := if StartsWith(t, 0, TCP) then TCP else UDP;
      LettersFirst(t, p);
      AfterSlash(t, p);
    }
  }

  lemma LettersFirst(t: Bytes, p: Bytes)
    requires StartsWith(t, 0, p) && p in {TCP, UDP, ICMP, NONE}
    ensures Find(t, SLASH) >= |p|
  {
    hide Find;
    forall i | 0 <= i < |p| ensures t[i] != SLASH && t[i] != COMMA {
      assert t[i] == t[0..|p|][i] == p[i];
    }
  }

  lemma AfterSlash(t: Bytes, p: Bytes)
    requires StartsWith(t, 0, p) && p in {TCP, UDP} && |t| > 3 && t[3] == SLASH
    ensures var s := t[..Find(t, COMMA)];
            ProtoPort(s) <==> PortText(t[4..][..Find(t[4..], COMMA)])
  {
    hide Find, PortText;
    forall i | 0 <= i < 3 ensures t[i] != COMMA {
      assert t[i] == t[0..3][i] == p[i];
    }
    FindShift(t, COMMA, 4);
    var s := t[..Find(t, COMMA)];
    assert s[..3] == t[0..3] == p;
    assert s[4..] == t[4..][..Find(t[4..], COMMA)];
    if s[4..] == [] {
      EmptyPort();
    }
  }

  lemma EmptyPort()
    ensures !PortText([])
  {
  }

  lemma FindShift(t: Bytes, c: bv8, n: nat)
    requires n <= |t| && forall i | 0 <= i < n :: t[i] != c
    ensures Find(t, c) == n + Find(t[n..], c)
  {
    hide Find;
    var k := n + Find(t[n..], c);
    forall i | 0 <= i < k ensures t[i] != c {
      if i >= n {
        assert t[i] == t[n..][i - n];
      }
    }
    FindIs(t, c, k);
  }

  // A list of parts separated by commas, each of which is in a language.
  predicate Parts(t: Bytes, part: Bytes -> bool)
    decreases |t|
  {
    var k := Find(t, COMMA);
    part(t[..k]) && (k < |t| ==> Parts(t[k + 1..], part))
  }

  predicate AccessMessage(aton: InetAton, s: Bytes) {
    var k := Find(s, COMMA);
    |s| < MAX_MESSAGE_SIZE && ValidIp(aton, s[..k]) && k < |s| && Parts(s[k + 1..], ProtoPort)
  }

  predicate ServiceMessage(aton: InetAton, s: Bytes) {
    var k := Find(s, COMMA);
    |s| < MAX_MESSAGE_SIZE && ValidIp(aton, s[..k]) && k < |s| && Parts(s[k + 1..], ServiceId)
  }

  method ValidateAccessMsg(aton: InetAton, msg: Bytes) returns (ok: bool)
    ensures ok == AccessMessage(aton, msg)
  {
    hide ValidIp, ProtoPort, Find;
    if |msg| >= MAX_MESSAGE_SIZE {
      return false;
    }
    ok := HaveAllowIp(aton, msg);
    if !ok {
      return;
    }
    var k := StrChr(msg, 0, COMMA);
    assert msg[0..] == msg;
    if k == |msg| || 1 + k >= |msg| {
      EmptyPart(msg, k);
      return false;
    }
    while true
      invariant 0 <= k < |msg|
      invariant AccessMessage(aton, msg) == Parts(msg[k + 1..], ProtoPort)
      decreases |msg| - k
    {
      ok := ValidateProtoPortSpec(msg, k + 1);
      if !ok {
        return;
      }
      var next := StrChr(msg, k + 1, COMMA);
      PartsStep(msg, k, next, ProtoPort);
      if next == |msg| {
        return;
      }
      k := next;
    }
  }

  method ValidateServiceAccessMsg(aton: InetAton, msg: Bytes) returns (ok: bool)
    ensures ok == ServiceMessage(aton, msg)
  {
    hide ValidIp, ServiceId, Find;
    if |msg| >= MAX_MESSAGE_SIZE {
      return false;
    }
    ok := HaveAllowIp(aton, msg);
    if !ok {
      return;
    }
    var k := StrChr(msg, 0, COMMA);
    assert msg[0..] == msg;
    if k == |msg| || 1 + k >= |msg| {
      EmptyPart(msg, k);
      return false;
    }
    while true
      invariant 0 <= k < |msg|
      invariant ServiceMessage(aton, msg) == Parts(msg[k + 1..], ServiceId)
      decreases |msg| - k
    {
      ok := HaveServiceId(msg, k + 1);
      if !ok {
        return;
      }
      var next := StrChr(msg, k + 1, COMMA);
      PartsStep(msg, k, next, ServiceId);
      if next == |msg| {
        return;
      }
      k := next;
    }
  }

  lemma PartsStep(msg: Bytes, k: nat, next: nat, part: Bytes -> bool)
    requires k < |msg| && next == k + 1 + Find(msg[k + 1..], COMMA)
    requires part(msg[k + 1..][..Find(msg[k + 1..], COMMA)])
    ensures Parts(msg[k + 1..], part) == (next < |msg| ==> Parts(msg[next + 1..], part))
  {
    hide Find;
    if next < |msg| {
      assert msg[k + 1..][next - k..] == msg[next + 1..];
    }
  }

  // The empty text is no part.
  lemma EmptyPart(msg: Bytes, k: nat)
    requires k == |msg| || k + 1 == |msg|
    ensures k < |msg| ==> !Parts(msg[k + 1..], ProtoPort) && !Parts(msg[k + 1..], ServiceId)
  {
    if k < |msg| {
      assert msg[k + 1..] == [];
    }
  }

  // ----- the accepted texts written out -----

  // Each part after a comma of its own.
  function Joined(parts: seq<Bytes>): Bytes {
    if parts == [] then [] else [COMMA] + parts[0] + Joined(parts[1..])
  }

  predicate NoComma(s: Bytes) { forall i | 0 <= i < |s| :: s[i] != COMMA }

  lemma {:induction false} JoinedParts(parts: seq<Bytes>, part: Bytes -> bool)
    requires |parts| > 0 && forall i | 0 <= i < |parts| :: part(parts[i]) && NoComma(parts[i])
    ensures Parts(Joined(parts)[1..], part)
  {
    hide Find;
    var t, p := Joined(parts)[1..], parts[0];
    assert t == p + Joined(parts[1..]);
    FindIs(t, COMMA, |p|);
    assert t[..|p|] == p;
    if |parts| > 1 {
      assert t[|p| + 1..] == Joined(parts[1..])[1..];
      JoinedParts(parts[1..], part);
    }
  }

  lemma {:induction false} PartsJoined(t: Bytes, part: Bytes -> bool) returns (parts: seq<Bytes>)
    requires Parts(t, part)
    ensures |parts| > 0 && (forall i | 0 <= i < |parts| :: part(parts[i]))
    ensures [COMMA] + t == Joined(parts)
    decreases |t|
  {
    hide Find;
    var k := Find(t, COMMA);
    parts := [t[..k]];
    if k < |t| {
      var rest := PartsJoined(t[k + 1..], part);
      parts := [t[..k]] + rest;
      assert parts[1..] == rest;
      assert t == t[..k] + ([COMMA] + t[k + 1..]);
    } else {
      assert Joined(parts) == [COMMA] + parts[0] + Joined(parts[1..]);
      assert parts[1..] == [];
    }
  }

  // Exactly the texts ip,spec,spec,... with at least one spec.
  lemma AccessGrammar(aton: InetAton, s: Bytes)
    ensures AccessMessage(aton, s)
      <==> |s| < MAX_MESSAGE_SIZE && exists ip, specs ::
             && ValidIp(aton, ip) && |specs| > 0 && (forall i | 0 <= i < |specs| :: ProtoPort(specs[i]))
             && s == ip + Joined(specs)
  {
    hide ValidIp, ProtoPort, Find;
    if AccessMessage(aton, s) {
      var k := Find(s, COMMA);
      var specs := PartsJoined(s[k + 1..], ProtoPort);
      assert s == s[..k] + ([COMMA] + s[k + 1..]);
      assert s == s[..k] + Joined(specs);
    }
    forall ip, specs | |s| < MAX_MESSAGE_SIZE && ValidIp(aton, ip) && |specs| > 0
                       && (forall i | 0 <= i < |specs| :: ProtoPort(specs[i])) && s == ip + Joined(specs)
      ensures AccessMessage(aton, s)
    {
      WrittenOut(aton, ip, specs);
    }
  }

  lemma WrittenOut(aton: InetAton, ip: Bytes, specs: seq<Bytes>)
    requires ValidIp(aton, ip) && |specs| > 0 && (forall i | 0 <= i < |specs| :: ProtoPort(specs[i]))
    requires |ip + Joined(specs)| < MAX_MESSAGE_SIZE
    ensures AccessMessage(aton, ip + Joined(specs))
  {
    hide ProtoPort, Find;
    var s := ip + Joined(specs);
    forall i | 0 <= i < |specs| ensures NoComma(specs[i]) {
      SpecHasNoComma(specs[i]);
    }
    JoinedParts(specs, ProtoPort);
    FindIs(s, COMMA, |ip|);
    assert s[..|ip|] == ip && s[|ip| + 1..] == Joined(specs)[1..];
  }

  lemma SpecHasNoComma(s: Bytes)
    requires ProtoPort(s)
    ensures NoComma(s)
  {
    hide Decimal;
    forall i | 0 <= i < |s| ensures s[i] != COMMA {
      if i < 3 {
        assert s[i] == s[..3][i];
      } else if i > 3 {
        assert s[i] == s[4..][i - 4];
      }
    }
  }

  // And the service messages exactly the texts ip,id,id,... with at least one id.
  lemma ServiceGrammar(aton: InetAton, s: Bytes)
    ensures ServiceMessage(aton, s)
      <==> |s| < MAX_MESSAGE_SIZE && exists ip, ids ::
             && ValidIp(aton, ip) && |ids| > 0 && (forall i | 0 <= i < |ids| :: ServiceId(ids[i]))
             && s == ip + Joined(ids)
  {
    hide ValidIp, ServiceId, Find;
    if ServiceMessage(aton, s) {
      var k := Find(s, COMMA);
      var ids := PartsJoined(s[k + 1..], ServiceId);
      assert s == s[..k] + ([COMMA] + s[k + 1..]);
      assert s == s[..k] + Joined(ids);
    }
    forall ip, ids | |s| < MAX_MESSAGE_SIZE && ValidIp(aton, ip) && |ids| > 0
                     && (forall i | 0 <= i < |ids| :: ServiceId(ids[i])) && s == ip + Joined(ids)
      ensures ServiceMessage(aton, s)
    {
      ServiceWrittenOut(aton, ip, ids);
    }
  }

  lemma ServiceWrittenOut(aton: InetAton, ip: Bytes, ids: seq<Bytes>)
    requires ValidIp(aton, ip) && |ids| > 0 && (forall i | 0 <= i < |ids| :: ServiceId(ids[i]))
    requires |ip + Joined(ids)| < MAX_MESSAGE_SIZE
    ensures ServiceMessage(aton, ip + Joined(ids))
  {
    hide ServiceId, Find;
    var s := ip + Joined(ids);
    forall i | 0 <= i < |ids| ensures NoComma(ids[i]) {
      IdHasNoComma(ids[i]);
    }
    JoinedParts(ids, ServiceId);
    FindIs(s, COMMA, |ip|);
    assert s[..|ip|] == ip && s[|ip| + 1..] == Joined(ids)[1..];
  }

  lemma IdHasNoComma(s: Bytes)
    requires ServiceId(s)
    ensures NoComma(s)
  {
    hide Decimal;
  }

  // ----- NAT access and command messages -----

  // ip,port where anything may follow a further comma but the text does not end in one.
  predicate NatMessage(aton: InetAton, s: Bytes) {
    var k := Find(s, COMMA);
    && |s| < MAX_MESSAGE_SIZE && ValidIp(aton, s[..k]) && k < |s|
    && PortText(s[k + 1..][..Find(s[k + 1..], COMMA)])
    && s[|s| - 1] != COMMA
  }

  method ValidateNatAccessMsg(aton: InetAton, msg: Bytes) returns (ok: bool)
    ensures ok == NatMessage(aton, msg)
  {
    hide ValidIp, PortText, Find;
    if |msg| >= MAX_MESSAGE_SIZE {
      return false;
    }
    ok := HaveAllowIp(aton, msg);
    if !ok {
      return;
    }
    var k := StrChr(msg, 0, COMMA);
    assert msg[0..] == msg;
    if k == |msg| || 1 + k >= |msg| {
      return false;
    }
    ok := HavePort(msg, k + 1);
    if !ok {
      return;
    }
    ok := msg[|msg| - 1] != COMMA;
  }

  predicate CommandMessage(aton: InetAton, s: Bytes) {
    var k := Find(s, COMMA);
    |s| < MAX_CMD_LEN && ValidIp(aton, s[..k]) && k + 1 < |s|
  }

  method ValidateCmdMsg(aton: InetAton, msg: Bytes) returns (ok: bool)
    ensures ok == CommandMessage(aton, msg)
  {
    hide ValidIp, Find;
    if |msg| >= MAX_CMD_LEN {
      return false;
    }
    ok := HaveAllowIp(aton, msg);
    if !ok {
      return;
    }
    var k := StrChr(msg, 0, COMMA);
    assert msg[0..] == msg;
    ok := k < |msg| && 1 + k < |msg|;
  }

  // A NAT message is an address, a comma and a port, after which more may follow a comma but not
  // end in one.
  lemma NatGrammar(aton: InetAton, s: Bytes)
    ensures NatMessage(aton, s)
      <==> |s| < MAX_MESSAGE_SIZE && exists ip, port, more ::
             && ValidIp(aton, ip) && PortText(port) && s == ip + [COMMA] + port + more
             && (more == [] || (more[0] == COMMA && more[|more| - 1] != COMMA))
  {
    hide ValidIp, PortText, Find;
    if NatMessage(aton, s) {
      var k := Find(s, COMMA);
      var r := s[k + 1..];
      var n := Find(r, COMMA);
      assert s == s[..k] + [COMMA] + r[..n] + r[n..];
      assert r[n..] != [] ==> r[n..][|r[n..]| - 1] == s[|s| - 1];
    }
    forall ip, port, more | |s| < MAX_MESSAGE_SIZE && ValidIp(aton, ip) && PortText(port)
                            && s == ip + [COMMA] + port + more
                            && (more == [] || (more[0] == COMMA && more[|more| - 1] != COMMA))
      ensures NatMessage(aton, s)
    {
      NatWrittenOut(aton, ip, port, more);
    }
  }

  lemma NatWrittenOut(aton: InetAton, ip: Bytes, port: Bytes, more: Bytes)
    requires ValidIp(aton, ip) && PortText(port) && |ip + [COMMA] + port + more| < MAX_MESSAGE_SIZE
    requires more == [] || (more[0] == COMMA && more[|more| - 1] != COMMA)
    ensures NatMessage(aton, ip + [COMMA] + port + more)
  {
    hide Find, Decimal;
    var s := ip + [COMMA] + port + more;
    FindIs(s, COMMA, |ip|);
    var r := s[|ip| + 1..];
    assert r == port + more && s[..|ip|] == ip;
    FindIs(r, COMMA, |port|);
    assert r[..|port|] == port;
    assert s[|s| - 1] == if more == [] then port[|port| - 1] else more[|more| - 1];
  }

  // A command message is an address, a comma and a command.
  lemma CommandGrammar(aton: InetAton, s: Bytes)
    ensures CommandMessage(aton, s)
      <==> |s| < MAX_CMD_LEN && exists ip, command ::
             ValidIp(aton, ip) && command != [] && s == ip + [COMMA] + command
  {
    hide Find;
    if CommandMessage(aton, s) {
      var k := Find(s, COMMA);
      assert s == s[..k] + [COMMA] + s[k + 1..];
    }
    forall ip, command | |s| < MAX_CMD_LEN && ValidIp(aton, ip) && command != [] && s == ip + [COMMA] + command
      ensures CommandMessage(aton, s)
    {
      FindIs(s, COMMA, |ip|);
      assert s[..|ip|] == ip;
    }
  }
}
