/**
 What the decoder accepts: whatever the text, every field of the result was on the wire, in its
 place, and passed the checks of its kind, and the digest is that of the text before it.
 */
module SpaAccepted {
  import opened Common
  import opened SpaMessage
  import opened SpaFields
  import opened SpaDecode
  import Base64
  import Hashes

  // The text after the first i separators, and the field there.
  function RestAt(s: Bytes, i: nat): Bytes {
    if i == 0 then s else var r := RestAt(s, i - 1); Advance(r, Find(r, COLON))
  }

  function FieldAt(s: Bytes, i: nat): Bytes { var r := RestAt(s, i); r[..Find(r, COLON)] }

  // A field that is the base64 of a text.
  predicate Encodes(field: Bytes, text: Bytes) {
    var d := Base64.Decoded(field);
    d.Some? && text <= d.value && IsCString(text) && (|text| < |d.value| ==> d.value[|text|] == 0)
  }

  // A message of its type: 0 is a command, 1 and 2 are services, 3 to 8 accesses.
  predicate MessageOfType(aton: InetAton, t: int, m: Bytes) {
    && 0 <= t <= 8
    && (t == 0 ==> CommandMessage(aton, m))
    && (t == 1 || t == 2 ==> ServiceMessage(aton, m))
    && (t >= 3 ==> AccessMessage(aton, m))
  }

  // A NAT message for the types 4, 6, 7 and 8 and no others.
  predicate NatAccepted(aton: InetAton, text: Bytes, i: nat, f: Fields) {
    && (f.natAccess.Some? <==> f.msgType in {4, 6, 7, 8})
    && (f.natAccess.Some? ==>
          && 1 <= |FieldAt(text, i)| <= 256 && Encodes(FieldAt(text, i), f.natAccess.value)
          && NatMessage(aton, f.natAccess.value))
  }

  // Server authentication is what is left, or the part before a separator for the types 5, 6 and 8.
  predicate AuthAccepted(rest: Bytes, f: Fields) {
    var part := if f.msgType in {5, 6, 8} then rest[..Find(rest, COLON)] else rest;
    && |rest| <= 256
    && (f.serverAuth.Some? <==> rest != [] && (f.msgType in {5, 6, 8} ==> Find(rest, COLON) < |rest|))
    && (f.serverAuth.Some? ==> Encodes(part, f.serverAuth.value))
  }

  // How many fields there are after the message.
  function NatFields(f: Fields): nat { if f.natAccess.Some? then 1 else 0 }
  function AuthFields(f: Fields): nat { if f.serverAuth.Some? then 1 else 0 }

  predicate MessageAccepted(aton: InetAton, text: Bytes, i: nat, f: Fields) {
    && 1 <= |FieldAt(text, i)| <= 256 && Encodes(FieldAt(text, i), f.message)
    && MessageOfType(aton, f.msgType, f.message)
  }

  // The message and what follows it, from the i-th field on.
  predicate TailAccepted(aton: InetAton, text: Bytes, i: nat, f: Fields) {
    && MessageAccepted(aton, text, i, f)
    && NatAccepted(aton, text, i + 1, f)
    && AuthAccepted(RestAt(text, i + 1 + NatFields(f)), f)
  }

  predicate NumberAt(text: Bytes, i: nat, max: nat, n: int) {
    1 <= |FieldAt(text, i)| <= max && Bounded(FieldAt(text, i), 0, -1) == Some(n)
  }

  // The type, and no more separators after it than it has room for.
  predicate TypeAt(text: Bytes, i: nat, t: int) {
    && 0 <= t <= 8
    && NumFields(RestAt(text, i)) <= if t in {0, 1, 3} then 2 else if t in {6, 8} then 4 else 3
  }

  predicate RandAt(text: Bytes, f: Fields) { |FieldAt(text, 0)| >= 16 && f.rand == FieldAt(text, 0)[..16] }

  // In SDP mode the fields are the random value, the time, the type and the message.
  predicate SdpAccepted(aton: InetAton, text: Bytes, f: Fields) {
    && RandAt(text, f)
    && NumberAt(text, 1, 12, f.timestamp)
    && NumberAt(text, 2, 2, f.msgType) && TypeAt(text, 2, f.msgType)
    && TailAccepted(aton, text, 3, f)
    && f.username == [] && f.version == [] && f.timeout == 0
  }

  // In legacy mode the user comes second, the version fourth and a timeout last.
  predicate LegacyAccepted(aton: InetAton, text: Bytes, f: Fields) {
    && RandAt(text, f)
    && 1 <= |FieldAt(text, 1)| <= 64 && Encodes(FieldAt(text, 1), f.username) && ValidUsername(f.username)
    && NumberAt(text, 2, 12, f.timestamp)
    && 1 <= |f.version| <= 8 && f.version == FieldAt(text, 3)
    && NumberAt(text, 4, 2, f.msgType) && TypeAt(text, 4, f.msgType)
    && TailAccepted(aton, text, 5, f)
    && TimeoutAccepted(RestAt(text, 6 + NatFields(f) + AuthFields(f)), f)
  }

  // The timeout is all that is left, for the types 5, 6 and 8.
  predicate TimeoutAccepted(rest: Bytes, f: Fields) {
    if f.msgType in {5, 6, 8}
    then 1 <= |rest| <= 256 && AllDigits(rest) && Bounded(rest, 0, -1) == Some(f.timeout) && f.timeout <= 65536
    else f.timeout == 0
  }

  // ----- parser by parser -----

  lemma FieldTextEncodes(s: Bytes)
    ensures FieldText(s).Some? ==> Encodes(s, FieldText(s).value)
  {
    hide Base64.Decoded;
  }

  lemma RestStep(text: Bytes, i: nat)
    ensures RestAt(text, i + 1) == Advance(RestAt(text, i), |FieldAt(text, i)|)
    ensures FieldAt(text, i) == RestAt(text, i)[..Find(RestAt(text, i), COLON)]
  {
    hide Find;
  }

  lemma BoundedWithin(s: Bytes, max: int)
    ensures Bounded(s, 0, max).Some? ==> Bounded(s, 0, max) == Bounded(s, 0, -1)
    ensures Bounded(s, 0, max).Some? && max >= 0 ==> 0 <= Bounded(s, 0, max).value <= max
  {
    hide StrTol, ToInt32;
  }

  lemma RandSound(text: Bytes, st: State)
    requires st.rest == text && ParseRand(st).Some?
    ensures var r := ParseRand(st).value;
            r.rest == RestAt(text, 1) && RandAt(text, r.fields) && r.fields == st.fields.(rand := r.fields.rand)
  {
    hide Find;
    RestStep(text, 0);
  }

  lemma UsernameSound(text: Bytes, st: State)
    requires st.rest == RestAt(text, 1) && ParseUsername(st).Some?
    ensures var r := ParseUsername(st).value;
            && r.rest == RestAt(text, 2) && r.fields == st.fields.(username := r.fields.username)
            && 1 <= |FieldAt(text, 1)| <= 64 && Encodes(FieldAt(text, 1), r.fields.username)
            && ValidUsername(r.fields.username)
  {
    hide Find, RestAt, FieldText, Encodes, ValidUsername;
    RestStep(text, 1);
    FieldTextEncodes(FieldAt(text, 1));
  }

  lemma TimestampSound(text: Bytes, i: nat, st: State)
    requires st.rest == RestAt(text, i) && ParseTimestamp(st).Some?
    ensures var r := ParseTimestamp(st).value;
            && r.rest == RestAt(text, i + 1) && r.fields == st.fields.(timestamp := r.fields.timestamp)
            && NumberAt(text, i, 12, r.fields.timestamp)
  {
    hide Find, RestAt, Bounded;
    RestStep(text, i);
  }

  lemma VersionSound(text: Bytes, st: State)
    requires st.rest == RestAt(text, 3) && ParseVersion(st).Some?
    ensures var r := ParseVersion(st).value;
            && r.rest == RestAt(text, 4) && r.fields == st.fields.(version := FieldAt(text, 3))
            && 1 <= |r.fields.version| <= 8
  {
    hide Find, RestAt;
    RestStep(text, 3);
  }

  lemma TypeSound(text: Bytes, i: nat, st: State)
    requires st.rest == RestAt(text, i) && ParseMsgType(st).Some?
    ensures var r := ParseMsgType(st).value;
            && r.rest == RestAt(text, i + 1) && r.fields == st.fields.(msgType := r.fields.msgType)
            && NumberAt(text, i, 2, r.fields.msgType) && TypeAt(text, i, r.fields.msgType)
  {
    hide Find, RestAt, Bounded, NumFields;
    RestStep(text, i);
    BoundedWithin(FieldAt(text, i), 8);
  }

  lemma MessageSound(aton: InetAton, text: Bytes, i: nat, st: State)
    requires st.rest == RestAt(text, i) && ParseMsg(aton, st).Some? && 0 <= st.fields.msgType <= 8
    ensures var r := ParseMsg(aton, st).value;
            && r.rest == RestAt(text, i + 1) && r.fields == st.fields.(message := r.fields.message)
            && MessageAccepted(aton, text, i, r.fields)
  {
    hide Find, RestAt, FieldText, Encodes, CommandMessage, ServiceMessage, AccessMessage;
    RestStep(text, i);
    FieldTextEncodes(FieldAt(text, i));
  }

  lemma NatSound(aton: InetAton, text: Bytes, i: nat, st: State)
    requires st.rest == RestAt(text, i) && ParseNat(aton, st).Some? && st.fields.natAccess.None?
    ensures var r := ParseNat(aton, st).value;
            && r.rest == RestAt(text, i + NatFields(r.fields))
            && r.fields == st.fields.(natAccess := r.fields.natAccess)
            && NatAccepted(aton, text, i, r.fields)
  {
    hide Find, RestAt, FieldText, Encodes, NatMessage;
    RestStep(text, i);
    FieldTextEncodes(FieldAt(text, i));
  }

  lemma AuthSound(text: Bytes, i: nat, st: State)
    requires st.rest == RestAt(text, i) && ParseAuth(st).Some? && st.fields.serverAuth.None?
    ensures var r := ParseAuth(st).value;
            && r.fields == st.fields.(serverAuth := r.fields.serverAuth) && AuthAccepted(st.rest, r.fields)
            && (r.fields.msgType in {5, 6, 8} ==> r.rest == RestAt(text, i + AuthFields(r.fields)))
  {
    hide Find, RestAt, FieldText, Encodes;
    RestStep(text, i);
    FieldTextEncodes(FieldAt(text, i));
    FieldTextEncodes(st.rest);
  }

  lemma TimeoutSound(st: State)
    requires ParseTimeout(st).Some? && st.fields.timeout == 0
    ensures var r := ParseTimeout(st).value;
            r.fields == st.fields.(timeout := r.fields.timeout) && TimeoutAccepted(st.rest, r.fields)
  {
    hide Bounded;
    BoundedWithin(st.rest, 65536);
  }

  lemma TypeIsKnown(text: Bytes, i: nat, t: int)
    requires TypeAt(text, i, t)
    ensures 0 <= t <= 8
  {
  }

  // What was found out about a field stays true when later ones are set.
  lemma SameFields(aton: InetAton, text: Bytes, i: nat, e: Fields, f: Fields, g: Fields)
    requires MessageAccepted(aton, text, i, e) && f == e.(natAccess := f.natAccess)
    requires NatAccepted(aton, text, i + 1, f) && g == f.(serverAuth := g.serverAuth)
    requires AuthAccepted(RestAt(text, i + 1 + NatFields(f)), g)
    ensures TailAccepted(aton, text, i, g)
  {
    hide RestAt, FieldAt, Encodes, NatMessage, MessageOfType, AuthAccepted;
  }

  // ----- the decoder -----

  lemma Unfold(aton: InetAton, sdp: bool, i: nat, st: State) returns (next: State)
    requires i < ParserCount(sdp) && ParseFrom(aton, sdp, i, st).Some?
    ensures ParserAt(aton, sdp, i, st) == Some(next)
    ensures ParseFrom(aton, sdp, i + 1, next) == ParseFrom(aton, sdp, i, st)
  {
    hide ParserAt;
    next := ParserAt(aton, sdp, i, st).value;
  }

  lemma ParsedAll(aton: InetAton, sdp: bool, st: State)
    ensures ParseFrom(aton, sdp, ParserCount(sdp), st) == Some(st)
  {
  }

  // Everything that comes out in SDP mode was on the wire in its place.
  lemma SdpSound(aton: InetAton, text: Bytes)
    requires ParseFrom(aton, true, 0, State(EMPTY, text)).Some?
    ensures SdpAccepted(aton, text, ParseFrom(aton, true, 0, State(EMPTY, text)).value.fields)
  {
    hide ParseFrom, RestAt, FieldAt, ParseRand, ParseTimestamp, ParseMsgType, ParseMsg, ParseNat, ParseAuth;
    hide NumberAt, MessageAccepted, NatAccepted, AuthAccepted, TypeAt;
    var a := State(EMPTY, text);
    var b := Unfold(aton, true, 0, a);
    RandSound(text, a);
    var c := Unfold(aton, true, 1, b);
    TimestampSound(text, 1, b);
    var d := Unfold(aton, true, 2, c);
    TypeSound(text, 2, c);
    TypeIsKnown(text, 2, d.fields.msgType);
    var e := Unfold(aton, true, 3, d);
    MessageSound(aton, text, 3, d);
    var f := Unfold(aton, true, 4, e);
    NatSound(aton, text, 4, e);
    var g := Unfold(aton, true, 5, f);
    AuthSound(text, 4 + NatFields(f.fields), f);
    ParsedAll(aton, true, g);
    SameFields(aton, text, 3, e.fields, f.fields, g.fields);
  }

  // And so it was in legacy mode.
  lemma LegacySound(aton: InetAton, text: Bytes)
    requires ParseFrom(aton, false, 0, State(EMPTY, text)).Some?
    ensures LegacyAccepted(aton, text, ParseFrom(aton, false, 0, State(EMPTY, text)).value.fields)
  {
    hide ParseFrom, RestAt, FieldAt, ParseRand, ParseTimestamp, ParseMsgType, ParseMsg, ParseNat, ParseAuth;
    hide ParseUsername, ParseVersion, ParseTimeout, Encodes, ValidUsername, TimeoutAccepted;
    hide NumberAt, MessageAccepted, NatAccepted, AuthAccepted, TypeAt;
    var a := State(EMPTY, text);
    var b := Unfold(aton, false, 0, a);
    RandSound(text, a);
    var c := Unfold(aton, false, 1, b);
    UsernameSound(text, b);
    var d := Unfold(aton, false, 2, c);
    TimestampSound(text, 2, c);
    var e := Unfold(aton, false, 3, d);
    VersionSound(text, d);
    var f := Unfold(aton, false, 4, e);
    TypeSound(text, 4, e);
    TypeIsKnown(text, 4, f.fields.msgType);
    LegacyTailSound(aton, text, f);
  }

  lemma LegacyTailSound(aton: InetAton, text: Bytes, f: State)
    requires f.rest == RestAt(text, 5) && 0 <= f.fields.msgType <= 8 && ParseFrom(aton, false, 5, f).Some?
    requires f.fields.natAccess.None? && f.fields.serverAuth.None? && f.fields.timeout == 0
    ensures var g := ParseFrom(aton, false, 5, f).value.fields;
            && g == f.fields.(message := g.message, natAccess := g.natAccess, serverAuth := g.serverAuth,
                              timeout := g.timeout)
            && TailAccepted(aton, text, 5, g)
            && TimeoutAccepted(RestAt(text, 6 + NatFields(g) + AuthFields(g)), g)
  {
    hide ParseFrom, RestAt, FieldAt, ParseMsg, ParseNat, ParseAuth, ParseTimeout, AllDigits, Bounded;
    hide MessageAccepted, NatAccepted, AuthAccepted;
    var g := Unfold(aton, false, 5, f);
    MessageSound(aton, text, 5, f);
    var h := Unfold(aton, false, 6, g);
    NatSound(aton, text, 6, g);
    var i := Unfold(aton, false, 7, h);
    AuthSound(text, 6 + NatFields(h.fields), h);
    var j := Unfold(aton, false, 8, i);
    TimeoutSound(i);
    ParsedAll(aton, false, j);
    SameFields(aton, text, 5, g.fields, h.fields, i.fields);
    SameTail(aton, text, 5, i.fields, j.fields);
  }

  lemma SameTail(aton: InetAton, text: Bytes, i: nat, f: Fields, g: Fields)
    requires TailAccepted(aton, text, i, f) && g == f.(timeout := g.timeout)
    ensures TailAccepted(aton, text, i, g)
  {
    hide RestAt, FieldAt, Encodes, NatMessage, MessageOfType;
  }

  // The data of the digest: the text, and after a NUL in the buffer what comes of the bytes there.
  function Digested(pt: Bytes, text: Bytes, n: nat): Bytes
    requires |text| + 1 + n <= |pt|
  {
    text + (Zeros(n) + pt[|text| + n..])[..|pt| - |text| - 1 - n]
  }

  // The buffer is a text, a separator and the digest of the text, printable throughout, and the
  // fields were in the text.
  predicate DecodedFrom(h: Hashes.Functions, aton: InetAton, sdp: bool, pt: Bytes, d: Decoded) {
    var x, n := CStr(pt), |d.digest|;
    && 36 <= |pt| < 1500 && (forall i | 0 <= i < |x| :: 0x20 <= x[i] <= 0x7e)
    && |x| > n && n == Base64.SextetCount(Hashes.DigestLen(d.algorithm))
    && var text := x[..|x| - n - 1];
       && x == text + [COLON] + d.digest
       && d.digest == Base64.Unpadded(Hashes.Digest(h, d.algorithm, Digested(pt, text, n)))
       && (if sdp then SdpAccepted(aton, text, d.fields) else LegacyAccepted(aton, text, d.fields))
  }

  // Whatever is decoded was decoded from such a buffer.
  lemma DecodeSound(h: Hashes.Functions, aton: InetAton, sdp: bool, pt: Bytes)
    requires Decode(h, aton, sdp, pt).Some?
    ensures DecodedFrom(h, aton, sdp, pt, Decode(h, aton, sdp, pt).value)
  {
    hide ParseFrom, Hashes.Digest, Base64.Unpadded, StrLen, NumFields, LastField, Decode, Chopped, Digested;
    hide SdpAccepted, LegacyAccepted, AlgorithmOf;
    var x := CStr(pt);
    var p := LastField(x);
    var d := Decode(h, aton, sdp, pt).value;
    DecodeStages(h, aton, sdp, pt);
    DigestLengths(|x| - p, d.algorithm);
    LastIsAfterColon(x);
    var text := x[..p - 1];
    SplitAtLast(pt, x, p);
    ChoppedIs(pt, p, |x| - p);
    if sdp {
      SdpSound(aton, text);
    } else {
      LegacySound(aton, text);
    }
  }

  // Without a NUL in the buffer the digest is that of the text before the separator.
  lemma DigestIsOfText(h: Hashes.Functions, aton: InetAton, sdp: bool, pt: Bytes, d: Decoded)
    requires DecodedFrom(h, aton, sdp, pt, d) && IsCString(pt)
    ensures |d.digest| < |pt|
    ensures var text := pt[..|pt| - |d.digest| - 1];
            pt == text + [COLON] + Base64.Unpadded(Hashes.Digest(h, d.algorithm, text))
  {
    hide Hashes.Digest, Base64.Unpadded, StrLen, SdpAccepted, LegacyAccepted;
    StrLenUnique(pt, |pt|);
    assert pt[..|pt|] == pt;
    var text := pt[..|pt| - |d.digest| - 1];
    assert Digested(pt, text, |d.digest|) == text;
  }

  lemma SplitAtLast(pt: Bytes, x: Bytes, p: nat)
    requires |x| <= |pt| && x == pt[..|x|] && 0 < p < |x| && x[p - 1] == COLON
    ensures var text := x[..p - 1];
            x == text + [COLON] + x[p..] && text == pt[..p - 1] && text == x[..|x| - |x[p..]| - 1]
  {
  }

  lemma ChoppedIs(pt: Bytes, p: nat, t: nat)
    requires 0 < p <= p - 1 + t && p + t <= |pt|
    ensures Chopped(pt, p, t)[..|pt| - t - 1] == Digested(pt, pt[..p - 1], t)
  {
  }

  // The stages of the decoder that have passed when there is a result.
  lemma DecodeStages(h: Hashes.Functions, aton: InetAton, sdp: bool, pt: Bytes)
    requires Decode(h, aton, sdp, pt).Some?
    ensures var d, x := Decode(h, aton, sdp, pt).value, CStr(pt);
            var p := LastField(x);
            && ValidMsgLen(|pt|) && AllPrint(x) && NumFields(x) > 0 && 0 < p < |x|
            && AlgorithmOf(|x| - p) == Some(d.algorithm) && d.digest == x[p..] && x == pt[..|x|]
            && DigestText(h, d.algorithm, Chopped(pt, p, |x| - p)[..|pt| - (|x| - p) - 1]) == x[p..]
            && var st := ParseFrom(aton, sdp, 0, State(EMPTY, x[..p - 1]));
               st.Some? && st.value.fields == d.fields
  {
    hide ParseFrom, DigestText, StrLen, NumFields, LastField, Chopped;
    var x := CStr(pt);
    LastIsAfterColon(x);
  }

  lemma LastIsAfterColon(x: Bytes)
    requires NumFields(x) > 0
    ensures LastField(x) > 0 && x[LastField(x) - 1] == COLON
  {
    hide Colons, AfterColons;
    ColonsAfter(x, MAX_SPA_FIELDS + 2);
  }

  lemma RandIsFirst(h: Hashes.Functions, aton: InetAton, sdp: bool, pt: Bytes, d: Decoded)
    requires DecodedFrom(h, aton, sdp, pt, d)
    ensures |pt| >= 16 && d.fields.rand == pt[..16]
  {
    hide Hashes.Digest, Base64.Unpadded, StrLen, Digested, RandAt, SdpAccepted, LegacyAccepted;
    var x := CStr(pt);
    var text := x[..|x| - |d.digest| - 1];
    AcceptedRand(aton, sdp, text, d.fields);
    FirstSixteen(text, d.fields);
    assert text == pt[..|text|];
  }

  lemma AcceptedRand(aton: InetAton, sdp: bool, text: Bytes, f: Fields)
    requires if sdp then SdpAccepted(aton, text, f) else LegacyAccepted(aton, text, f)
    ensures RandAt(text, f)
  {
    hide RandAt, NumberAt, TypeAt, TailAccepted, TimeoutAccepted, FieldAt, RestAt, Encodes, ValidUsername;
  }

  lemma FirstSixteen(text: Bytes, f: Fields)
    requires RandAt(text, f)
    ensures |text| >= 16 && f.rand == text[..16]
  {
    hide Find;
    assert RestAt(text, 0) == text;
  }
}
