/**
 Decoding what the encoder wrote gives the fields back exactly when a condition on the
 fields holds, in legacy mode and in SDP mode.
 */
module SpaRoundTrip {
  import opened Common
  import opened SpaMessage
  import opened SpaFields
  import opened SpaEncode
  import opened SpaDecode
  import Base64
  import Hashes

  // ----- what a sender's fields look like -----

  predicate OptText(o: Option<Bytes>, max: nat) { o.Some? ==> 0 < |o.value| < max && IsCString(o.value) }

  // The fields as the setters leave them, with a random value of digits.
  predicate Sendable(aton: InetAton, f: Fields, sdp: bool) {
    && |f.rand| == RAND_VAL_SIZE && AllDigits(f.rand)
    && f.timestamp >= 0
    && 0 <= f.msgType < LAST_MSG_TYPE
    && 0 < |f.message| < MAX_MESSAGE_SIZE && IsCString(f.message)
    && OptText(f.natAccess, 128) && (f.natAccess.Some? ==> NatMessage(aton, f.natAccess.value))
    && OptText(f.serverAuth, 64)
    && 0 <= f.timeout < TWO31
    && (!sdp ==>
          && ValidUsername(f.username) && |f.username| < MAX_USERNAME_SIZE
          && 0 < |f.version| <= MAX_VERSION_SIZE && AllPrint(f.version) && NoColon(f.version))
  }

  // The lengths alone.
  predicate Sized(f: Fields, sdp: bool) {
    && |f.rand| == RAND_VAL_SIZE && 0 <= f.msgType < LAST_MSG_TYPE && |f.message| < MAX_MESSAGE_SIZE
    && OptText(f.natAccess, 128) && OptText(f.serverAuth, 64) && 0 <= f.timeout < TWO31
    && (!sdp ==> |f.username| < MAX_USERNAME_SIZE && |f.version| <= MAX_VERSION_SIZE)
  }

  // The fields that are on the wire.
  function Carried(f: Fields, sdp: bool): Fields {
    if sdp then f.(username := [], version := [], timeout := 0) else Normalised(f)
  }

  predicate Recoverable(aton: InetAton, f: Fields, sdp: bool) {
    var t := Carried(f, sdp).msgType;
    && f.timestamp < TWO31
    && |f.message| <= 192 && ValidMessage(aton, t, f.message)
    && (f.natAccess.Some? <==> NatType(t))
    && (sdp ==> (f.serverAuth.Some? ==> !TimeoutType(t)))
    && (!sdp ==> |f.username| <= 48)
    && (!sdp ==> f.timeout <= MAX_TIMEOUT && (f.timeout > 0 ==> t >= ACCESS_MSG))
  }

  function Parts(f: Fields, sdp: bool): (p: seq<Bytes>)
    requires Printable(f)
  {
    if sdp then SdpParts(f) else LegacyParts(Normalised(f))
  }

  // ----- the parts are plain -----

  predicate Plain(s: Bytes) { s != [] && NoColon(s) && AllPrint(s) }

  lemma Base64CharPlain(c: bv8)
    requires Base64.Base64Char(c)
    ensures IsPrint(c) && c != COLON
  {
  }

  lemma B64Plain(s: Bytes)
    ensures NoColon(B64(s)) && AllPrint(B64(s))
    ensures |B64(s)| == (4 * |s| + 2) / 3
  {
    hide Base64.Base64Char, IsPrint, Base64.B64Table, Base64.Sextet;
    Base64.UnpaddedChars(s);
    forall i | 0 <= i < |B64(s)| ensures IsPrint(B64(s)[i]) && B64(s)[i] != COLON {
      Base64CharPlain(B64(s)[i]);
    }
  }

  lemma DigitPlain(c: bv8)
    requires IsDigit(c)
    ensures IsPrint(c) && c != COLON && c != 0
  {
  }

  lemma DigitsPlain(s: Bytes)
    requires AllDigits(s)
    ensures NoColon(s) && AllPrint(s)
  {
    hide IsDigit, IsPrint;
    forall i | 0 <= i < |s| ensures IsPrint(s[i]) && s[i] != COLON {
      DigitPlain(s[i]);
    }
  }

  lemma DecPlain(n: nat)
    ensures Plain(Dec(n))
  {
    hide Dec, NoColon, AllPrint;
    DecimalOfDec(n);
    DigitsPlain(Dec(n));
  }

  predicate AllPlain(parts: seq<Bytes>) { forall i | 0 <= i < |parts| :: Plain(parts[i]) }

  lemma OptPlain(o: Option<Bytes>, max: nat)
    requires OptText(o, max)
    ensures AllPlain(OptPart(o))
  {
    hide B64, NoColon, AllPrint;
    if o.Some? {
      B64Plain(o.value);
    }
  }

  lemma RandPlain(s: Bytes)
    requires AllDigits(s) && s != []
    ensures Plain(s)
  {
    DigitsPlain(s);
  }

  lemma TextPlain(s: Bytes)
    requires s != []
    ensures Plain(B64(s))
  {
    hide B64;
    B64Plain(s);
  }

  lemma VersionPlain(s: Bytes)
    requires s != [] && AllPrint(s) && NoColon(s)
    ensures Plain(s)
  {
  }

  lemma PartsPlain(aton: InetAton, f: Fields, sdp: bool)
    requires Sendable(aton, f, sdp)
    ensures Printable(f) && AllPlain(Parts(f, sdp)) && 4 <= |Parts(f, sdp)| <= 9
  {
    hide NoColon, AllPrint, AllDigits, B64, Dec, UsernameChar, NatMessage, TypeFor, Plain;
    RandPlain(f.rand);
    if !sdp {
      TextPlain(f.username);
      VersionPlain(f.version);
    }
    TextPlain(f.message);
    DecPlain(f.timestamp % TWO32);
    DecPlain(f.msgType);
    DecPlain(Normalised(f).msgType);
    DecPlain(f.timeout);
    OptPlain(f.natAccess, 128);
    OptPlain(f.serverAuth, 64);
  }

  // ----- joined texts -----

  lemma {:induction false} JoinPrint(parts: seq<Bytes>)
    requires AllPlain(parts)
    ensures AllPrint(Join(parts))
  {
    hide NoColon, IsPrint;
    ColonPrints();
    if |parts| > 1 {
      assert AllPlain(parts[1..]);
      JoinPrint(parts[1..]);
    }
  }

  lemma ColonPrints()
    ensures IsPrint(COLON)
  {
  }

  lemma {:induction false} JoinColons(parts: seq<Bytes>, n: nat)
    requires 1 <= |parts| <= n + 1 && AllPlain(parts)
    ensures Colons(Join(parts), n) == |parts| - 1
    ensures AfterColons(Join(parts), n) == |Join(parts)| - |parts[|parts| - 1]|
    decreases n
  {
    hide AllPrint, NoColon, Find, Colons, AfterColons;
    JoinStep(parts);
    var s := Join(parts);
    assert s[0..] == s;
    ColonStep(s, 0, |parts[0]|, n);
    if |parts| > 1 {
      JoinColons(parts[1..], n - 1);
    }
  }

  function PartsLength(parts: seq<Bytes>): nat {
    if parts == [] then 0 else |parts[0]| + 1 + PartsLength(parts[1..])
  }

  lemma {:induction false} JoinLength(parts: seq<Bytes>)
    ensures |Join(parts)| == if parts == [] then 0 else PartsLength(parts) - 1
  {
    if |parts| > 1 {
      JoinLength(parts[1..]);
    }
  }

  // ----- one parser at a time -----

  lemma RandStep(g: Fields, ps: seq<Bytes>)
    requires |ps| > 0 && Plain(ps[0]) && |ps[0]| == RAND_VAL_SIZE
    ensures ParseRand(State(g, Join(ps))) == Some(State(g.(rand := ps[0]), Join(ps[1..])))
  {
    hide Find, Join, Advance, AllPrint;
    JoinStep(ps);
  }

  lemma FieldTextOf(s: Bytes)
    requires IsCString(s)
    ensures FieldText(B64(s)) == Some(s)
  {
    hide Base64.Decoded, Base64.Unpadded;
    Base64.DecodeEncode(s, []);
    assert Base64.Unpadded(s) + [] == Base64.Unpadded(s);
    StrLenUnique(s, |s|);
    assert s[..|s|] == s;
  }

  lemma UsernameText(s: Bytes)
    requires ValidUsername(s) && |s| < MAX_USERNAME_SIZE
    ensures IsCString(s)
  {
    forall i | 0 <= i < |s| ensures s[i] != 0 {
      assert UsernameChar(s[i]);
    }
  }

  lemma UsernameStep(g: Fields, ps: seq<Bytes>, u: Bytes)
    requires |ps| > 0 && ps[0] == B64(u) && ValidUsername(u) && |u| < MAX_USERNAME_SIZE
    ensures ParseUsername(State(g, Join(ps)))
         == if |u| <= 48 then Some(State(g.(username := u), Join(ps[1..]))) else None
  {
    hide Find, Join, Advance, AllPrint, FieldText, UsernameChar, B64;
    B64Plain(u);
    JoinStep(ps);
    UsernameText(u);
    FieldTextOf(u);
  }

  lemma TimestampStep(g: Fields, ps: seq<Bytes>, n: nat)
    requires |ps| > 0 && ps[0] == Dec(n) && n < TWO32
    ensures ParseTimestamp(State(g, Join(ps)))
         == if n < TWO31 then Some(State(g.(timestamp := n), Join(ps[1..]))) else None
  {
    hide Find, Join, Advance, AllPrint, Bounded, Dec;
    DecPlain(n);
    JoinStep(ps);
    TenDigits(n);
    BoundedDec(n, -1);
  }

  lemma TenDigits(n: nat)
    requires n < TWO32
    ensures |Dec(n)| <= 10
  {
    hide Dec;
    assert Pow10(10) == 10000000000;
    DecLength(n, 10);
  }

  lemma VersionStep(g: Fields, ps: seq<Bytes>)
    requires |ps| > 0 && Plain(ps[0]) && |ps[0]| <= MAX_VERSION_SIZE
    ensures ParseVersion(State(g, Join(ps))) == Some(State(g.(version := ps[0]), Join(ps[1..])))
  {
    hide Find, Join, Advance, AllPrint;
    JoinStep(ps);
  }

  lemma TypeStep(g: Fields, ps: seq<Bytes>, t: nat)
    requires 0 < |ps| <= 12 && AllPlain(ps) && ps[0] == Dec(t) && t < LAST_MSG_TYPE
    ensures ParseMsgType(State(g, Join(ps)))
         == if |ps| - 1 <= FieldLimit(t) then Some(State(g.(msgType := t), Join(ps[1..]))) else None
  {
    hide Find, Join, Advance, AllPrint, NoColon, Bounded, Colons, AfterColons, FieldLimit;
    JoinStep(ps);
    assert |Dec(t)| == 1;
    BoundedDec(t, LAST_MSG_TYPE - 1);
    JoinColons(ps, MAX_SPA_FIELDS + 2);
  }

  lemma MessageStep(aton: InetAton, g: Fields, ps: seq<Bytes>, m: Bytes)
    requires |ps| > 0 && ps[0] == B64(m) && IsCString(m) && m != []
    ensures ParseMsg(aton, State(g, Join(ps)))
         == if |m| <= 192 && ValidMessage(aton, g.msgType, m) then Some(State(g.(message := m), Join(ps[1..])))
            else None
  {
    hide Find, Join, Advance, AllPrint, FieldText, ValidMessage, B64;
    B64Plain(m);
    JoinStep(ps);
    FieldTextOf(m);
  }

  lemma NatStep(aton: InetAton, g: Fields, ps: seq<Bytes>, m: Bytes)
    requires |ps| > 0 && ps[0] == B64(m) && IsCString(m) && 0 < |m| < 128
    requires NatType(g.msgType) && NatMessage(aton, m)
    ensures ParseNat(aton, State(g, Join(ps))) == Some(State(g.(natAccess := Some(m)), Join(ps[1..])))
  {
    hide Find, Join, Advance, AllPrint, FieldText, NatMessage, B64;
    B64Plain(m);
    JoinStep(ps);
    FieldTextOf(m);
  }

  // A server authentication field before a timeout.
  lemma AuthThenTimeout(g: Fields, a: Bytes, n: nat)
    requires IsCString(a) && 0 < |a| < 64 && n < TWO31 && TimeoutType(g.msgType)
    ensures ParseAuth(State(g, Join([B64(a), Dec(n)]))) == Some(State(g.(serverAuth := Some(a)), Dec(n)))
  {
    hide Find, Advance, AllPrint, FieldText, B64, Dec;
    B64Plain(a);
    JoinStep([B64(a), Dec(n)]);
    assert [B64(a), Dec(n)][1..] == [Dec(n)];
    FieldTextOf(a);
    TenDigits(n);
  }

  // A server authentication field at the end.
  lemma AuthLast(g: Fields, a: Bytes)
    requires IsCString(a) && 0 < |a| < 64 && !TimeoutType(g.msgType)
    ensures ParseAuth(State(g, B64(a))) == Some(State(g.(serverAuth := Some(a)), B64(a)))
  {
    hide Find, Advance, AllPrint, FieldText, B64;
    B64Plain(a);
    FieldTextOf(a);
  }

  // In SDP mode the timeout types leave it unread.
  lemma AuthSkipped(g: Fields, s: Bytes)
    requires TimeoutType(g.msgType) && Plain(s) && |s| <= MAX_MESSAGE_SIZE
    ensures ParseAuth(State(g, s)) == Some(State(g, s))
  {
    hide Find;
    FindIs(s, COLON, |s|);
  }

  lemma TimeoutStep(g: Fields, n: nat)
    requires TimeoutType(g.msgType) && n < TWO31
    ensures ParseTimeout(State(g, Dec(n)))
         == if n <= MAX_TIMEOUT then Some(State(g.(timeout := n), Dec(n))) else None
  {
    hide Bounded, Dec, AllDigits;
    DecimalOfDec(n);
    TenDigits(n);
    BoundedDec(n, MAX_TIMEOUT);
  }

  // ----- what the last parsers can and cannot do -----

  lemma NatFacts(aton: InetAton, st: State)
    ensures var r := ParseNat(aton, st);
            r.Some? ==>
              && (NatType(st.fields.msgType) ==> r.value.fields.natAccess.Some?)
              && (!NatType(st.fields.msgType) ==> r.value == st)
              && r.value.fields == st.fields.(natAccess := r.value.fields.natAccess)
  {
    hide FieldText, NatMessage, Find, Advance, NatType;
  }

  lemma AuthFacts(st: State)
    ensures var r := ParseAuth(st);
            r.Some? ==> r.value.fields == st.fields.(serverAuth := r.value.fields.serverAuth)
  {
    hide FieldText, Find, Advance, TimeoutType;
  }

  lemma TimeoutFacts(st: State)
    ensures var r := ParseTimeout(st);
            r.Some? ==> r.value.fields == st.fields.(timeout := r.value.fields.timeout)
                        && (!TimeoutType(st.fields.msgType) ==> r.value == st)
  {
    hide Bounded, AllDigits;
  }

  // ----- the end of the message, from the NAT parser on -----

  function NatIndex(sdp: bool): nat { if sdp then 4 else 6 }

  lemma Last3Legacy(aton: InetAton, st: State)
    ensures ParseFrom(aton, false, 6, st)
         == match ParseNat(aton, st) case None => None case Some(a) =>
            match ParseAuth(a) case None => None case Some(b) => ParseTimeout(b)
  {
    hide ParseNat, ParseAuth, ParseTimeout;
    match ParseNat(aton, st)
    case None =>
    case Some(a) =>
      match ParseAuth(a)
      case None =>
      case Some(b) =>
        match ParseTimeout(b)
        case None =>
        case Some(c) => assert ParseFrom(aton, false, 9, c) == Some(c);
  }

  lemma Last2Sdp(aton: InetAton, st: State)
    ensures ParseFrom(aton, true, 4, st) == match ParseNat(aton, st) case None => None case Some(a) => ParseAuth(a)
  {
    hide ParseNat, ParseAuth;
    match ParseNat(aton, st)
    case None =>
    case Some(a) =>
      match ParseAuth(a)
      case None =>
      case Some(b) => assert ParseFrom(aton, true, 6, b) == Some(b);
  }

  // A NAT message is recovered only if it is there exactly when the type is a NAT type,
  // a timeout only if the type is a timeout type.
  lemma TailNecessary(aton: InetAton, sdp: bool, st: State)
    requires st.fields.natAccess.None? && st.fields.timeout == 0
    ensures var r := ParseFrom(aton, sdp, NatIndex(sdp), st);
            r.Some? ==>
              && (r.value.fields.natAccess.Some? <==> NatType(st.fields.msgType))
              && (sdp || !TimeoutType(st.fields.msgType) ==> r.value.fields.timeout == 0)
              && r.value.fields.timestamp == st.fields.timestamp
  {
    hide ParseNat, ParseAuth, ParseTimeout, NatType, TimeoutType, ParseFrom;
    if sdp {
      Last2Sdp(aton, st);
    } else {
      Last3Legacy(aton, st);
    }
    NatFacts(aton, st);
    match ParseNat(aton, st)
    case None =>
    case Some(a) =>
      AuthFacts(a);
      match ParseAuth(a)
      case None =>
      case Some(b) => TimeoutFacts(b);
  }

  // The state after the message has been parsed: g, and the optional parts still to come.
  predicate TailGood(aton: InetAton, g: Fields, f: Fields) {
    && g.msgType == f.msgType
    && OptText(f.natAccess, 128) && (f.natAccess.Some? ==> NatMessage(aton, f.natAccess.value))
    && OptText(f.serverAuth, 64)
    && (f.natAccess.Some? <==> NatType(f.msgType))
    && 0 <= f.timeout < TWO31
  }

  lemma NatTail(aton: InetAton, g: Fields, f: Fields, more: seq<Bytes>)
    requires TailGood(aton, g, f)
    ensures ParseNat(aton, State(g, Join(OptPart(f.natAccess) + more)))
         == Some(State(if f.natAccess.Some? then g.(natAccess := f.natAccess) else g, Join(more)))
  {
    hide Join, B64, NatMessage;
    if f.natAccess.Some? {
      var ps := OptPart(f.natAccess) + more;
      assert ps[1..] == more;
      NatStep(aton, g, ps, f.natAccess.value);
    } else {
      assert [] + more == more;
    }
  }

  // Where the type has a timeout, it is recovered when it is not above the maximum.
  lemma TimeoutTail(g: Fields, auth: Option<Bytes>, n: nat)
    requires OptText(auth, 64) && n < TWO31 && TimeoutType(g.msgType)
    ensures var r := ParseAuth(State(g, Join(OptPart(auth) + [Dec(n)])));
            r.Some? && r.value == State(if auth.Some? then g.(serverAuth := auth) else g, Dec(n))
  {
    hide B64, Dec, AllPrint, NoColon;
    if auth.Some? {
      AuthThenTimeout(g, auth.value, n);
      assert OptPart(auth) + [Dec(n)] == [B64(auth.value), Dec(n)];
    } else {
      assert [] + [Dec(n)] == [Dec(n)];
      DecPlain(n);
      TenDigits(n);
      AuthSkipped(g, Dec(n));
    }
  }

  lemma NoTimeoutTail(g: Fields, auth: Option<Bytes>)
    requires OptText(auth, 64) && !TimeoutType(g.msgType)
    ensures var r := ParseAuth(State(g, Join(OptPart(auth))));
            r.Some? && r.value.fields == if auth.Some? then g.(serverAuth := auth) else g
  {
    hide B64;
    if auth.Some? {
      AuthLast(g, auth.value);
    }
  }

  // The fields of f that are parsed after the message.
  function WithTail(g: Fields, f: Fields): Fields {
    g.(natAccess := f.natAccess, serverAuth := f.serverAuth, timeout := f.timeout)
  }

  predicate Fresh(g: Fields) { g.natAccess.None? && g.serverAuth.None? && g.timeout == 0 }

  // A type that goes with its timeout.
  predicate Coherent(f: Fields) {
    Printable(f) && (f.msgType >= ACCESS_MSG ==> (TimeoutType(f.msgType) <==> f.timeout > 0))
  }

  lemma LegacyTimeoutTail(aton: InetAton, g: Fields, f: Fields)
    requires TailGood(aton, g, f) && Fresh(g) && Coherent(f) && TimeoutType(f.msgType)
    ensures var parts := OptPart(f.natAccess) + (OptPart(f.serverAuth) + TimeoutPart(f));
            var r := ParseFrom(aton, false, 6, State(g, Join(parts)));
            if f.timeout <= MAX_TIMEOUT then r.Some? && r.value.fields == WithTail(g, f) else r.None?
  {
    hide ParseFrom, ParseNat, ParseAuth, ParseTimeout, Join, OptPart, OptText, Dec, NatMessage;
    var more := OptPart(f.serverAuth) + [Dec(f.timeout)];
    var st := State(g, Join(OptPart(f.natAccess) + more));
    Last3Legacy(aton, st);
    NatTail(aton, g, f, more);
    var g1 := if f.natAccess.Some? then g.(natAccess := f.natAccess) else g;
    TimeoutTail(g1, f.serverAuth, f.timeout);
    var g2 := if f.serverAuth.Some? then g1.(serverAuth := f.serverAuth) else g1;
    TimeoutStep(g2, f.timeout);
  }

  lemma LegacyPlainTail(aton: InetAton, g: Fields, f: Fields)
    requires TailGood(aton, g, f) && Fresh(g) && Coherent(f) && !TimeoutType(f.msgType) && TimeoutPart(f) == []
    ensures var parts := OptPart(f.natAccess) + (OptPart(f.serverAuth) + TimeoutPart(f));
            var r := ParseFrom(aton, false, 6, State(g, Join(parts)));
            r.Some? && r.value.fields == WithTail(g, f).(timeout := 0)
  {
    hide ParseFrom, ParseNat, ParseAuth, ParseTimeout, Join, OptPart, OptText, Dec, NatMessage;
    var more := OptPart(f.serverAuth) + TimeoutPart(f);
    assert more == OptPart(f.serverAuth);
    var st := State(g, Join(OptPart(f.natAccess) + more));
    Last3Legacy(aton, st);
    NatTail(aton, g, f, more);
    var g1 := if f.natAccess.Some? then g.(natAccess := f.natAccess) else g;
    NoTimeoutTail(g1, f.serverAuth);
    TimeoutFacts(ParseAuth(State(g1, Join(more))).value);
    var b := ParseAuth(State(g1, Join(more))).value;
    PlainTimeout(b);
  }

  lemma PlainTimeout(st: State)
    requires !TimeoutType(st.fields.msgType)
    ensures ParseTimeout(st) == Some(st)
  {
  }

  lemma LegacyTail(aton: InetAton, g: Fields, f: Fields)
    requires TailGood(aton, g, f) && Fresh(g) && Coherent(f)
    ensures var parts := OptPart(f.natAccess) + (OptPart(f.serverAuth) + TimeoutPart(f));
            var r := ParseFrom(aton, false, 6, State(g, Join(parts)));
            r.Some? && r.value.fields == WithTail(g, f)
            <==> f.timeout <= MAX_TIMEOUT && (f.timeout > 0 ==> f.msgType >= ACCESS_MSG)
  {
    hide ParseFrom, Join, OptPart, OptText, Dec, NatMessage;
    if TimeoutType(f.msgType) {
      LegacyTimeoutTail(aton, g, f);
    } else if f.timeout == 0 || f.msgType == COMMAND_MSG {
      LegacyPlainTail(aton, g, f);
    } else {
      TailNecessary(aton, false, State(g, Join(OptPart(f.natAccess) + (OptPart(f.serverAuth) + TimeoutPart(f)))));
    }
  }

  lemma SdpTail(aton: InetAton, g: Fields, f: Fields)
    requires TailGood(aton, g, f) && Fresh(g)
    ensures var r := ParseFrom(aton, true, 4, State(g, Join(OptPart(f.natAccess) + OptPart(f.serverAuth))));
            r.Some? && r.value.fields == WithTail(g, f.(timeout := 0))
            <==> (f.serverAuth.Some? ==> !TimeoutType(f.msgType))
  {
    hide ParseFrom, ParseNat, ParseAuth, OptText, NatMessage, B64, TimeoutType;
    var st := State(g, Join(OptPart(f.natAccess) + OptPart(f.serverAuth)));
    Last2Sdp(aton, st);
    NatTail(aton, g, f, OptPart(f.serverAuth));
    var g1 := if f.natAccess.Some? then g.(natAccess := f.natAccess) else g;
    if !TimeoutType(f.msgType) {
      NoTimeoutTail(g1, f.serverAuth);
    } else if f.serverAuth.Some? {
      AuthUnread(g1, f.serverAuth.value);
    } else {
      NothingLeft(g1);
    }
  }

  lemma AuthUnread(g: Fields, a: Bytes)
    requires TimeoutType(g.msgType) && OptText(Some(a), 64)
    ensures ParseAuth(State(g, B64(a))) == Some(State(g, B64(a)))
  {
    hide B64, AllPrint, NoColon;
    TextPlain(a);
    B64Plain(a);
    AuthSkipped(g, B64(a));
  }

  lemma NothingLeft(g: Fields)
    ensures ParseAuth(State(g, [])) == Some(State(g, []))
  {
  }

  // ----- the beginning of the message -----

  lemma NextParser(aton: InetAton, sdp: bool, i: nat, st: State)
    requires i < ParserCount(sdp)
    ensures ParseFrom(aton, sdp, i, st)
         == match ParserAt(aton, sdp, i, st) case None => None case Some(next) => ParseFrom(aton, sdp, i + 1, next)
  {
  }

  function LegacyHead(f: Fields): Fields {
    EMPTY.(rand := f.rand, username := f.username, timestamp := f.timestamp % TWO32, version := f.version)
  }

  function SdpHead(f: Fields): Fields { EMPTY.(rand := f.rand, timestamp := f.timestamp % TWO32) }

  // The random value, username, timestamp and version.
  lemma LegacyHead1(aton: InetAton, f: Fields, ps: seq<Bytes>)
    requires Sendable(aton, f, false) && |ps| > 4
    requires ps[0] == f.rand && ps[1] == B64(f.username) && ps[2] == Dec(f.timestamp % TWO32) && ps[3] == f.version
    ensures ParseFrom(aton, false, 0, State(EMPTY, Join(ps)))
         == if |f.username| <= 48 && f.timestamp % TWO32 < TWO31
            then ParseFrom(aton, false, 4, State(LegacyHead(f), Join(ps[4..])))
            else None
  {
    hide ParseFrom, ParseRand, ParseUsername, ParseTimestamp, ParseVersion, Join, B64, Dec, UsernameChar, NatMessage;
    hide AllPrint, NoColon, AllDigits;
    var n := f.timestamp % TWO32;
    assert ps[1..][1..] == ps[2..] && ps[2..][1..] == ps[3..] && ps[3..][1..] == ps[4..];
    RandPlain(f.rand);
    NextParser(aton, false, 0, State(EMPTY, Join(ps)));
    RandStep(EMPTY, ps);
    var g1 := EMPTY.(rand := f.rand);
    NextParser(aton, false, 1, State(g1, Join(ps[1..])));
    UsernameStep(g1, ps[1..], f.username);
    var g2 := g1.(username := f.username);
    NextParser(aton, false, 2, State(g2, Join(ps[2..])));
    TimestampStep(g2, ps[2..], n);
    var g3 := g2.(timestamp := n);
    VersionPlain(f.version);
    NextParser(aton, false, 3, State(g3, Join(ps[3..])));
    VersionStep(g3, ps[3..]);
  }

  lemma SdpHead1(aton: InetAton, f: Fields, ps: seq<Bytes>)
    requires Sendable(aton, f, true) && |ps| > 2
    requires ps[0] == f.rand && ps[1] == Dec(f.timestamp % TWO32)
    ensures ParseFrom(aton, true, 0, State(EMPTY, Join(ps)))
         == if f.timestamp % TWO32 < TWO31 then ParseFrom(aton, true, 2, State(SdpHead(f), Join(ps[2..]))) else None
  {
    hide ParseFrom, ParseRand, ParseTimestamp, Join, B64, Dec, UsernameChar, NatMessage, AllPrint, NoColon, AllDigits;
    assert ps[1..][1..] == ps[2..];
    RandPlain(f.rand);
    NextParser(aton, true, 0, State(EMPTY, Join(ps)));
    RandStep(EMPTY, ps);
    var g1 := EMPTY.(rand := f.rand);
    NextParser(aton, true, 1, State(g1, Join(ps[1..])));
    TimestampStep(g1, ps[1..], f.timestamp % TWO32);
  }

  // The type and the message.
  lemma Head2(aton: InetAton, sdp: bool, g: Fields, ps: seq<Bytes>, t: nat, m: Bytes)
    requires 2 <= |ps| <= 12 && AllPlain(ps) && ps[0] == Dec(t) && ps[1] == B64(m)
    requires t < LAST_MSG_TYPE && IsCString(m) && m != []
    ensures ParseFrom(aton, sdp, NatIndex(sdp) - 2, State(g, Join(ps)))
         == if |ps| - 1 <= FieldLimit(t) && |m| <= 192 && ValidMessage(aton, t, m)
            then ParseFrom(aton, sdp, NatIndex(sdp), State(g.(msgType := t, message := m), Join(ps[2..])))
            else None
  {
    hide ParseFrom, ParseMsgType, ParseMsg, Join, B64, Dec, ValidMessage, FieldLimit, Plain;
    assert ps[1..][1..] == ps[2..];
    NextParser(aton, sdp, NatIndex(sdp) - 2, State(g, Join(ps)));
    TypeStep(g, ps, t);
    var g1 := g.(msgType := t);
    NextParser(aton, sdp, NatIndex(sdp) - 1, State(g1, Join(ps[1..])));
    MessageStep(aton, g1, ps[1..], m);
  }

  // The optional parts never exceed the number of fields that goes with the type.
  lemma WithinLimit(f: Fields, sdp: bool)
    requires Printable(f) && (f.natAccess.Some? <==> NatType(f.msgType))
    requires !sdp ==> Coherent(f) && (f.timeout > 0 ==> f.msgType >= ACCESS_MSG)
    ensures |Tail(f)| + (if sdp then 0 else |TimeoutPart(f)|) <= FieldLimit(f.msgType)
  {
    hide B64, Dec;
  }

  // ----- all parsers -----

  lemma LegacySlices(c: Fields)
    requires Printable(c)
    ensures var ps := LegacyParts(c);
            && |ps| >= 6 && ps[0] == c.rand && ps[1] == B64(c.username)
            && ps[2] == Dec(c.timestamp % TWO32) && ps[3] == c.version
            && ps[4..][0] == Dec(c.msgType) && ps[4..][1] == B64(c.message)
            && ps[4..][2..] == OptPart(c.natAccess) + (OptPart(c.serverAuth) + TimeoutPart(c))
  {
    hide B64, Dec, OptPart, TimeoutPart;
  }

  lemma LegacyParse(aton: InetAton, f: Fields)
    requires Sendable(aton, f, false) && Printable(f)
    ensures var r := ParseFrom(aton, false, 0, State(EMPTY, Join(Parts(f, false))));
            r.Some? && r.value.fields == Carried(f, false) <==> Recoverable(aton, f, false)
  {
    hide ParseFrom, Join, B64, Dec, ValidMessage, FieldLimit, NatMessage, AllPrint, NoColon, AllDigits, UsernameChar;
    hide OptPart, TimeoutPart, TypeFor, NatType, TimeoutType, Plain, LegacyParts;
    var c := Normalised(f);
    TypeForTimeout(f.msgType, f.timeout);
    var ps := LegacyParts(c);
    PartsPlain(aton, f, false);
    LegacySlices(c);
    LegacyHead1(aton, f, ps);
    var g := LegacyHead(f);
    Head2(aton, false, g, ps[4..], c.msgType, f.message);
    var tail := OptPart(f.natAccess) + (OptPart(f.serverAuth) + TimeoutPart(c));
    var g2 := g.(msgType := c.msgType, message := f.message);
    if f.natAccess.Some? <==> NatType(c.msgType) {
      LegacyTail(aton, g2, c);
      if Recoverable(aton, f, false) {
        WithinLimit(c, false);
      }
      TimestampCase(aton, false, State(g2, Join(tail)));
    } else {
      TailNecessary(aton, false, State(g2, Join(tail)));
    }
  }

  // The timestamp is the one the head left.
  lemma TimestampCase(aton: InetAton, sdp: bool, st: State)
    requires Fresh(st.fields)
    ensures var r := ParseFrom(aton, sdp, NatIndex(sdp), st);
            r.Some? ==> r.value.fields.timestamp == st.fields.timestamp
  {
    hide ParseFrom;
    TailNecessary(aton, sdp, st);
  }

  lemma SdpParse(aton: InetAton, f: Fields)
    requires Sendable(aton, f, true) && Printable(f)
    ensures var r := ParseFrom(aton, true, 0, State(EMPTY, Join(Parts(f, true))));
            r.Some? && r.value.fields == Carried(f, true) <==> Recoverable(aton, f, true)
  {
    hide ParseFrom, Join, B64, Dec, ValidMessage, FieldLimit, NatMessage, AllPrint, NoColon, AllDigits, UsernameChar;
    hide OptPart, NatType, TimeoutType, Plain;
    var ps := SdpParts(f);
    PartsPlain(aton, f, true);
    SdpHead1(aton, f, ps);
    var g := SdpHead(f);
    Head2(aton, true, g, ps[2..], f.msgType, f.message);
    var tail := OptPart(f.natAccess) + OptPart(f.serverAuth);
    assert ps[2..][2..] == tail;
    var g2 := g.(msgType := f.msgType, message := f.message);
    if f.natAccess.Some? <==> NatType(f.msgType) {
      SdpTail(aton, g2, f);
      if Recoverable(aton, f, true) {
        WithinLimit(f, true);
      }
      TimestampCase(aton, true, State(g2, Join(tail)));
    } else {
      TailNecessary(aton, true, State(g2, Join(tail)));
    }
  }

  // ----- the text fits the buffer -----

  lemma {:induction false} LengthAppend(a: seq<Bytes>, b: seq<Bytes>)
    ensures PartsLength(a + b) == PartsLength(a) + PartsLength(b)
  {
    if a == [] {
      assert a + b == b;
    } else {
      assert (a + b)[1..] == a[1..] + b;
      LengthAppend(a[1..], b);
    }
  }

  lemma LengthThree(a: Bytes, b: Bytes, c: Bytes)
    ensures PartsLength([a, b, c]) == |a| + |b| + |c| + 3
  {
    assert [a, b, c][1..] == [b, c];
    LengthTwo(b, c);
  }

  lemma LengthTwo(a: Bytes, b: Bytes)
    ensures PartsLength([a, b]) == |a| + |b| + 2
  {
    assert [a, b][1..] == [b];
    assert PartsLength([b]) == |b| + 1;
  }

  lemma OptLength(o: Option<Bytes>, max: nat)
    requires OptText(o, max)
    ensures PartsLength(OptPart(o)) <= (4 * max + 2) / 3 + 1
  {
    hide B64, AllPrint, NoColon;
    if o.Some? {
      B64Plain(o.value);
    }
  }

  lemma TailLength(f: Fields, sdp: bool)
    requires Sized(f, sdp)
    ensures PartsLength(Tail(f)) <= 600
  {
    hide B64, AllPrint, NoColon, OptPart, OptText;
    B64Plain(f.message);
    OptLength(f.natAccess, 128);
    OptLength(f.serverAuth, 64);
    LengthAppend([B64(f.message)] + OptPart(f.natAccess), OptPart(f.serverAuth));
    LengthAppend([B64(f.message)], OptPart(f.natAccess));
  }

  lemma SdpLength(f: Fields)
    requires Sized(f, true)
    ensures PartsLength(SdpParts(f)) < TMP_BUF_SIZE
  {
    hide B64, AllPrint, NoColon, Tail, Dec, PartsLength;
    var ts, t := Dec(f.timestamp % TWO32), Dec(f.msgType);
    TenDigits(f.timestamp % TWO32);
    TenDigits(f.msgType);
    TailLength(f, true);
    LengthThree(f.rand, ts, t);
    LengthAppend([f.rand, ts, t], Tail(f));
  }

  lemma LegacyLength(f: Fields)
    requires Sized(f, false)
    ensures PartsLength(LegacyParts(f)) < TMP_BUF_SIZE
  {
    hide B64, AllPrint, NoColon, Tail, Dec, PartsLength, TimeoutPart;
    var ts, t, u := Dec(f.timestamp % TWO32), Dec(f.msgType), B64(f.username);
    TenDigits(f.timestamp % TWO32);
    TenDigits(f.msgType);
    B64Plain(f.username);
    LengthThree(f.rand, u, ts);
    LengthTwo(f.version, t);
    LengthAppend([f.rand, u, ts], [f.version, t]);
    TailLength(f, false);
    LengthAppend([f.rand, u, ts] + [f.version, t], Tail(f));
    TimeoutLength(f);
    LengthAppend([f.rand, u, ts] + [f.version, t] + Tail(f), TimeoutPart(f));
    assert LegacyParts(f) == [f.rand, u, ts] + [f.version, t] + Tail(f) + TimeoutPart(f);
  }

  // No text of a sender is ever cut.
  lemma NotCut(f: Fields, sdp: bool)
    requires Sized(f, sdp)
    ensures EncodedText(f, sdp) == Join(Parts(f, sdp))
  {
    hide AllPrint, NoColon, Join, SdpParts, LegacyParts;
    JoinLength(Parts(f, sdp));
    if sdp {
      SdpLength(f);
    } else {
      TypeForTimeout(f.msgType, f.timeout);
      LegacyLength(Normalised(f));
    }
  }

  // ----- the text written out -----

  // Parts that follow a first one.
  function Follow(ps: seq<Bytes>): Bytes { if ps == [] then [] else [COLON] + ps[0] + Follow(ps[1..]) }

  lemma {:induction false} JoinFollow(ps: seq<Bytes>)
    requires |ps| > 0
    ensures Join(ps) == ps[0] + Follow(ps[1..])
  {
    if |ps| > 1 {
      JoinFollow(ps[1..]);
      assert ps[0] + [COLON] + Join(ps[1..]) == ps[0] + ([COLON] + ps[1] + Follow(ps[1..][1..]));
    } else {
      assert ps[1..] == [];
    }
  }

  lemma {:induction false} FollowAppend(a: seq<Bytes>, b: seq<Bytes>)
    ensures Follow(a + b) == Follow(a) + Follow(b)
  {
    if a == [] {
      assert a + b == b;
    } else {
      assert (a + b)[1..] == a[1..] + b;
      FollowAppend(a[1..], b);
    }
  }

  lemma FollowOne(p: Bytes)
    ensures Follow([p]) == [COLON] + p
  {
    assert [p][1..] == [];
  }

  // A further part, if there is one.
  function Further(o: Option<Bytes>): Bytes {
    match o case None => [] case Some(s) => [COLON] + Base64.Unpadded(s)
  }

  lemma FollowOpt(o: Option<Bytes>)
    ensures Follow(OptPart(o)) == Further(o)
  {
    hide Base64.Unpadded;
    if o.Some? {
      FollowOne(B64(o.value));
    }
  }

  // The message and what follows it in both modes.
  function MessageText(f: Fields): Bytes {
    [COLON] + Base64.Unpadded(f.message) + Further(f.natAccess) + Further(f.serverAuth)
  }

  lemma FollowTail(f: Fields)
    ensures Follow(Tail(f)) == MessageText(f)
  {
    hide Base64.Unpadded, Follow, OptPart, Further;
    FollowAppend([B64(f.message)] + OptPart(f.natAccess), OptPart(f.serverAuth));
    FollowAppend([B64(f.message)], OptPart(f.natAccess));
    FollowOne(B64(f.message));
    FollowOpt(f.natAccess);
    FollowOpt(f.serverAuth);
  }

  // The text of a sender in SDP mode: random value, time, type, and message.
  lemma SdpTextWrittenOut(f: Fields)
    requires Sized(f, true)
    ensures EncodedText(f, true)
         == f.rand + [COLON] + Dec(f.timestamp % TWO32) + [COLON] + Dec(f.msgType) + MessageText(f)
  {
    hide EncodedText, Join, Base64.Unpadded, Follow, Tail, MessageText, Dec, OptText;
    NotCut(f, true);
    var ts, t := Dec(f.timestamp % TWO32), Dec(f.msgType);
    JoinFollow(SdpParts(f));
    assert SdpParts(f)[1..] == [ts] + [t] + Tail(f);
    FollowAppend([ts] + [t], Tail(f));
    FollowAppend([ts], [t]);
    FollowOne(ts);
    FollowOne(t);
    FollowTail(f);
    Regroup(f.rand, [COLON] + ts + ([COLON] + t), MessageText(f));
  }

  // And in legacy mode: the user comes second, the version fourth, and a timeout last, with the type
  // that goes with it.
  lemma LegacyTextWrittenOut(f: Fields)
    requires Sized(f, false)
    ensures var t := TypeFor(f.msgType, f.timeout);
            EncodedText(f, false)
            == f.rand + [COLON] + Base64.Unpadded(f.username) + [COLON] + Dec(f.timestamp % TWO32)
               + [COLON] + f.version + [COLON] + Dec(t) + MessageText(f)
               + (if f.timeout > 0 && t != 0 then [COLON] + Dec(f.timeout) else [])
  {
    hide EncodedText, Join, Base64.Unpadded, Follow, Tail, MessageText, Dec, OptText, TypeFor;
    NotCut(f, false);
    TypeForTimeout(f.msgType, f.timeout);
    var g := Normalised(f);
    var u, ts, t := B64(f.username), Dec(f.timestamp % TWO32), Dec(g.msgType);
    JoinFollow(LegacyParts(g));
    var four := [u, ts, f.version, t];
    assert LegacyParts(g)[1..] == four + Tail(g) + TimeoutPart(g);
    FollowAppend(four + Tail(g), TimeoutPart(g));
    FollowAppend(four, Tail(g));
    FollowTail(g);
    assert MessageText(g) == MessageText(f) by { SameMessage(f, g); }
    FollowOne(Dec(f.timeout));
    FollowNothing();
    Regroup(f.rand, Follow(four) + MessageText(f), Follow(TimeoutPart(g)));
    Regroup(f.rand, Follow(four), MessageText(f));
    FollowFour(u, ts, f.version, t);
    Spread(f.rand, u, ts, f.version, t);
  }

  lemma SameMessage(f: Fields, g: Fields)
    requires g.message == f.message && g.natAccess == f.natAccess && g.serverAuth == f.serverAuth
    ensures MessageText(g) == MessageText(f)
  {
  }

  lemma Spread(r: Bytes, a: Bytes, b: Bytes, c: Bytes, d: Bytes)
    ensures r + ([COLON] + a + [COLON] + b + [COLON] + c + [COLON] + d)
         == r + [COLON] + a + [COLON] + b + [COLON] + c + [COLON] + d
  {
    Regroup(r, [COLON] + a + [COLON] + b + [COLON] + c + [COLON], d);
    Regroup(r, [COLON] + a + [COLON] + b + [COLON] + c, [COLON]);
    Regroup(r, [COLON] + a + [COLON] + b + [COLON], c);
    Regroup(r, [COLON] + a + [COLON] + b, [COLON]);
    Regroup(r, [COLON] + a + [COLON], b);
    Regroup(r, [COLON] + a, [COLON]);
    Regroup(r, [COLON], a);
  }

  lemma Regroup(a: Bytes, b: Bytes, c: Bytes)
    ensures a + (b + c) == a + b + c
  {
  }

  lemma FollowFour(a: Bytes, b: Bytes, c: Bytes, d: Bytes)
    ensures Follow([a, b, c, d]) == [COLON] + a + [COLON] + b + [COLON] + c + [COLON] + d
  {
    hide Follow;
    assert [a, b, c, d] == [a] + [b] + [c] + [d];
    FollowAppend([a] + [b] + [c], [d]);
    FollowAppend([a] + [b], [c]);
    FollowAppend([a], [b]);
    FollowOne(a);
    FollowOne(b);
    FollowOne(c);
    FollowOne(d);
  }

  lemma FollowNothing()
    ensures Follow([]) == []
  {
  }

  lemma TimeoutLength(f: Fields)
    requires Printable(f) && f.timeout < TWO31
    ensures PartsLength(TimeoutPart(f)) <= 11
  {
    hide Dec;
    TenDigits(f.timeout);
  }

  // ----- the whole decoder -----

  // The sender's plaintext: the text, a separator and the digest of the text.
  function Plaintext(h: Hashes.Functions, a: Hashes.Algorithm, text: Bytes): Bytes {
    text + [COLON] + DigestText(h, a, text)
  }

  lemma DigestTextFacts(h: Hashes.Functions, a: Hashes.Algorithm, data: Bytes)
    ensures Plain(DigestText(h, a, data)) && 0 < |DigestText(h, a, data)| == Hashes.B64Len(a)
    ensures AlgorithmOf(Hashes.B64Len(a)) == Some(a)
  {
    hide Hashes.Digest, AllPrint, NoColon, Base64.Unpadded, AlgorithmOf;
    B64Plain(Hashes.Digest(h, a, data));
    DigestLengths(Hashes.B64Len(a), a);
  }

  lemma PrintText(s: Bytes)
    requires AllPrint(s)
    ensures CStr(s) == s
  {
    forall i | 0 <= i < |s| ensures s[i] != 0 {
      assert IsPrint(s[i]);
    }
    StrLenUnique(s, |s|);
  }

  lemma DecodePlaintext(h: Hashes.Functions, aton: InetAton, sdp: bool, ps: seq<Bytes>, a: Hashes.Algorithm)
    requires AllPlain(ps) && (if sdp then MIN_SDP_SPA_FIELDS else MIN_SPA_FIELDS) <= |ps| <= 10
    requires ValidMsgLen(|Plaintext(h, a, Join(ps))|)
    ensures Decode(h, aton, sdp, Plaintext(h, a, Join(ps)))
         == match ParseFrom(aton, sdp, 0, State(EMPTY, Join(ps)))
            case None => None
            case Some(st) => Some(Decoded(st.fields, a, DigestText(h, a, Join(ps))))
  {
    hide ParseFrom, Join, DigestText, AllPrint, NoColon, Plain, Colons, AfterColons, StrLen, Hashes.B64Len, AlgorithmOf;
    var text := Join(ps);
    var dig := DigestText(h, a, text);
    var pt := Plaintext(h, a, text);
    DigestTextFacts(h, a, text);
    var all := ps + [dig];
    JoinSnoc(ps, dig);
    JoinPrint(all);
    PrintText(pt);
    JoinColons(all, MAX_SPA_FIELDS + 2);
    assert pt[|text| + 1..] == dig;
    ChoppedPlaintext(text, dig);
    assert pt[..|text|] == text;
  }

  lemma ChoppedPlaintext(text: Bytes, dig: Bytes)
    requires |dig| > 0
    ensures var pt := text + [COLON] + dig;
            Chopped(pt, |text| + 1, |dig|)[..|pt| - |dig| - 1] == text
  {
  }

  // With its digest, a text is always long enough and never too long.
  lemma PlaintextLength(h: Hashes.Functions, a: Hashes.Algorithm, f: Fields, sdp: bool)
    requires Sized(f, sdp)
    ensures ValidMsgLen(|Plaintext(h, a, EncodedText(f, sdp))|)
  {
    hide DigestText, Parts, Join, EncodedText, Plain;
    DigestTextFacts(h, a, EncodedText(f, sdp));
    NotCut(f, sdp);
    FirstPart(f, sdp);
    JoinFirst(Parts(f, sdp));
  }

  lemma JoinFirst(ps: seq<Bytes>)
    requires |ps| > 1
    ensures Join(ps) == ps[0] + ([COLON] + Join(ps[1..]))
  {
  }

  lemma FirstPart(f: Fields, sdp: bool)
    requires Printable(f)
    ensures |Parts(f, sdp)| > 1 && Parts(f, sdp)[0] == f.rand
  {
  }

  // Decoding the encoder's text and digest gives back the fields on the wire and the digest
  // exactly when the fields are recoverable.
  lemma RoundTrip(h: Hashes.Functions, aton: InetAton, sdp: bool, f: Fields, a: Hashes.Algorithm)
    requires Sendable(aton, f, sdp) && Printable(f)
    ensures var text := EncodedText(f, sdp);
            Decode(h, aton, sdp, Plaintext(h, a, text)) == Some(Decoded(Carried(f, sdp), a, DigestText(h, a, text)))
            <==> Recoverable(aton, f, sdp)
  {
    hide ParseFrom, Join, DigestText, Decode, Plaintext, Plain, Recoverable, Carried, EncodedText;
    PartsPlain(aton, f, sdp);
    NotCut(f, sdp);
    EnoughParts(f, sdp);
    PlaintextLength(h, a, f, sdp);
    DecodePlaintext(h, aton, sdp, Parts(f, sdp), a);
    if sdp {
      SdpParse(aton, f);
    } else {
      LegacyParse(aton, f);
    }
  }

  lemma EnoughParts(f: Fields, sdp: bool)
    requires Printable(f)
    ensures |Parts(f, sdp)| >= if sdp then MIN_SDP_SPA_FIELDS else MIN_SPA_FIELDS
  {
  }

  // ----- two inputs that do not come back -----

  // "1.1.1.1", "1" and "tcp/1"
  const IP: Bytes := [0x31, 0x2e, 0x31, 0x2e, 0x31, 0x2e, 0x31]
  const SERVICE: Bytes := [0x31]
  const SPEC: Bytes := [0x74, 0x63, 0x70, 0x2f, 0x31]

  lemma ExampleIp(aton: InetAton)
    requires aton(IP)
    ensures ValidIp(aton, IP)
  {
    hide Count;
    CountsThree();
  }

  lemma CountsThree()
    ensures Count(IP, DOT) == 3
  {
    hide Count;
    EmptyCount();
    CountSnoc([], 0x31);
    var a: Bytes := [] + [0x31];
    CountSnoc(a, 0x2e);
    var b := a + [0x2e];
    CountSnoc(b, 0x31);
    CountSnoc(b + [0x31], 0x2e);
    var c := b + [0x31] + [0x2e];
    CountSnoc(c, 0x31);
    CountSnoc(c + [0x31], 0x2e);
    CountSnoc(c + [0x31] + [0x2e], 0x31);
    assert IP == c + [0x31] + [0x2e] + [0x31];
  }

  lemma EmptyCount()
    ensures Count([], DOT) == 0
  {
  }

  lemma CountSnoc(s: Bytes, c: bv8)
    ensures Count(s + [c], DOT) == Count(s, DOT) + if c == DOT then 1 else 0
  {
    assert (s + [c])[..|s|] == s;
  }

  lemma ExampleService(aton: InetAton)
    requires aton(IP)
    ensures ServiceMessage(aton, IP + [COMMA] + SERVICE)
  {
    hide Find;
    var s := IP + [COMMA] + SERVICE;
    ExampleIp(aton);
    FindIs(s, COMMA, 7);
    assert s[..7] == IP && s[8..] == SERVICE;
    FindIs(SERVICE, COMMA, 1);
    assert SERVICE[..1] == SERVICE && SERVICE[..0] == [];
    assert Decimal(SERVICE) == 1;
  }

  lemma ExampleSpec()
    ensures ProtoPort(SPEC)
  {
    assert SPEC[4..] == SERVICE && SERVICE[..0] == [];
    assert Decimal(SERVICE) == 1;
    assert PortText(SERVICE);
    assert SPEC[..3] == TCP;
  }

  lemma ExampleAccess(aton: InetAton)
    requires aton(IP)
    ensures AccessMessage(aton, IP + [COMMA] + SPEC)
  {
    hide Find, ValidIp, AccessMessage;
    ExampleIp(aton);
    ExampleSpec();
    assert Joined([SPEC]) == [COMMA] + SPEC;
    WrittenOut(aton, IP, [SPEC]);
    assert IP + ([COMMA] + SPEC) == IP + [COMMA] + SPEC;
  }

  function Example(t: int, message: Bytes, auth: Option<Bytes>, timeout: int): Fields {
    Fields(seq(16, _ => 0x30), [0x61], 0, [0x32], t, message, None, auth, timeout)
  }

  // In legacy mode a service message comes back without a timeout and not with one.
  lemma ServiceTimeoutLost(h: Hashes.Functions, aton: InetAton, a: Hashes.Algorithm)
    requires aton(IP)
    ensures var f := Example(SERVICE_ACCESS_MSG, IP + [COMMA] + SERVICE, None, 30);
            var text, plain := EncodedText(f, false), EncodedText(f.(timeout := 0), false);
            && Decode(h, aton, false, Plaintext(h, a, text))
               != Some(Decoded(Carried(f, false), a, DigestText(h, a, text)))
            && Decode(h, aton, false, Plaintext(h, a, plain))
               == Some(Decoded(Carried(f.(timeout := 0), false), a, DigestText(h, a, plain)))
  {
    hide Decode, EncodedText, ServiceMessage, AccessMessage, CommandMessage, NatMessage, DigestText, Plaintext;
    var f := Example(SERVICE_ACCESS_MSG, IP + [COMMA] + SERVICE, None, 30);
    ExampleService(aton);
    RoundTrip(h, aton, false, f, a);
    RoundTrip(h, aton, false, f.(timeout := 0), a);
  }

  // In SDP mode a timeout access message comes back without a server authentication and not with one.
  lemma SdpAuthLost(h: Hashes.Functions, aton: InetAton, a: Hashes.Algorithm)
    requires aton(IP)
    ensures var f := Example(CLIENT_TIMEOUT_ACCESS_MSG, IP + [COMMA] + SPEC, Some([0x61]), 0);
            var text, plain := EncodedText(f, true), EncodedText(f.(serverAuth := None), true);
            && Decode(h, aton, true, Plaintext(h, a, text))
               != Some(Decoded(Carried(f, true), a, DigestText(h, a, text)))
            && Decode(h, aton, true, Plaintext(h, a, plain))
               == Some(Decoded(Carried(f.(serverAuth := None), true), a, DigestText(h, a, plain)))
  {
    hide Decode, EncodedText, ServiceMessage, AccessMessage, CommandMessage, NatMessage, DigestText, Plaintext;
    var f := Example(CLIENT_TIMEOUT_ACCESS_MSG, IP + [COMMA] + SPEC, Some([0x61]), 0);
    ExampleAccess(aton);
    RoundTrip(h, aton, true, f, a);
    RoundTrip(h, aton, true, f.(serverAuth := None), a);
  }
}
