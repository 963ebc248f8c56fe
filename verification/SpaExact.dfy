/**
 The other direction of what the decoder accepts: a buffer of the described form is decoded, and
 to the fields described, so that the description is exact.
 */
module SpaExact {
  import opened Common
  import opened SpaMessage
  import opened SpaFields
  import opened SpaDecode
  import opened SpaRoundTrip
  import opened SpaAccepted
  import Base64
  import Hashes

  // ----- parser by parser -----

  lemma FieldIsText(field: Bytes, text: Bytes)
    requires Encodes(field, text)
    ensures FieldText(field) == Some(text)
  {
    hide Base64.Decoded, StrLen;
    var d := Base64.Decoded(field).value;
    forall i | 0 <= i < |text| ensures d[i] != 0 {
      assert d[i] == text[i];
    }
    StrLenUnique(d, |text|);
    assert d[..|text|] == text;
  }

  lemma BoundedUpTo(s: Bytes, max: int)
    requires Bounded(s, 0, -1).Some? && Bounded(s, 0, -1).value <= max
    ensures Bounded(s, 0, max) == Bounded(s, 0, -1)
  {
    hide StrTol, ToInt32;
  }

  lemma RandParsed(text: Bytes, f: Fields)
    requires RandAt(text, f)
    ensures ParseRand(State(EMPTY, text)) == Some(State(EMPTY.(rand := f.rand), RestAt(text, 1)))
  {
    hide Find;
    RestStep(text, 0);
    assert text[..16] == FieldAt(text, 0)[..16];
  }

  lemma UsernameParsed(text: Bytes, e: Fields, u: Bytes)
    requires 1 <= |FieldAt(text, 1)| <= 64 && Encodes(FieldAt(text, 1), u) && ValidUsername(u)
    ensures ParseUsername(State(e, RestAt(text, 1))) == Some(State(e.(username := u), RestAt(text, 2)))
  {
    hide Find, RestAt, FieldText, Encodes, ValidUsername;
    RestStep(text, 1);
    FieldIsText(FieldAt(text, 1), u);
  }

  lemma TimestampParsed(text: Bytes, i: nat, e: Fields, n: int)
    requires NumberAt(text, i, 12, n)
    ensures ParseTimestamp(State(e, RestAt(text, i))) == Some(State(e.(timestamp := n), RestAt(text, i + 1)))
  {
    hide Find, RestAt, Bounded;
    RestStep(text, i);
  }

  lemma VersionParsed(text: Bytes, e: Fields)
    requires 1 <= |FieldAt(text, 3)| <= 8
    ensures ParseVersion(State(e, RestAt(text, 3))) == Some(State(e.(version := FieldAt(text, 3)), RestAt(text, 4)))
  {
    hide Find, RestAt;
    RestStep(text, 3);
  }

  lemma TypeParsed(text: Bytes, i: nat, e: Fields, t: int)
    requires NumberAt(text, i, 2, t) && TypeAt(text, i, t)
    ensures ParseMsgType(State(e, RestAt(text, i))) == Some(State(e.(msgType := t), RestAt(text, i + 1)))
  {
    hide Find, RestAt, Bounded, NumFields;
    RestStep(text, i);
    BoundedUpTo(FieldAt(text, i), 8);
  }

  // The message types are 0 to 8, and each has its own kind of message.
  lemma MessageKinds(aton: InetAton, t: int, m: Bytes)
    requires 0 <= t <= 8
    ensures ValidMessage(aton, t, m) <==> MessageOfType(aton, t, m)
  {
    hide CommandMessage, ServiceMessage, AccessMessage;
  }

  lemma MessageParsed(aton: InetAton, text: Bytes, i: nat, e: Fields, f: Fields)
    requires MessageAccepted(aton, text, i, f) && e.msgType == f.msgType
    ensures ParseMsg(aton, State(e, RestAt(text, i))) == Some(State(e.(message := f.message), RestAt(text, i + 1)))
  {
    hide Find, RestAt, FieldText, Encodes, CommandMessage, ServiceMessage, AccessMessage, ValidMessage;
    RestStep(text, i);
    FieldIsText(FieldAt(text, i), f.message);
    MessageKinds(aton, f.msgType, f.message);
  }

  lemma NatParsed(aton: InetAton, text: Bytes, i: nat, e: Fields, f: Fields)
    requires NatAccepted(aton, text, i, f) && e.msgType == f.msgType && e.natAccess.None?
    ensures ParseNat(aton, State(e, RestAt(text, i)))
         == Some(State(e.(natAccess := f.natAccess), RestAt(text, i + NatFields(f))))
  {
    hide Find, RestAt, FieldText, Encodes, NatMessage;
    RestStep(text, i);
    if f.natAccess.Some? {
      FieldIsText(FieldAt(text, i), f.natAccess.value);
    } else {
      assert e.(natAccess := f.natAccess) == e;
    }
  }

  lemma AuthParsed(text: Bytes, i: nat, e: Fields, f: Fields) returns (next: State)
    requires AuthAccepted(RestAt(text, i), f) && e.msgType == f.msgType && e.serverAuth.None?
    ensures ParseAuth(State(e, RestAt(text, i))) == Some(next) && next.fields == e.(serverAuth := f.serverAuth)
    ensures f.msgType in {5, 6, 8} ==> next.rest == RestAt(text, i + AuthFields(f))
  {
    hide Find, RestAt, FieldText, Encodes;
    var rest := RestAt(text, i);
    var st := State(e, rest);
    RestStep(text, i);
    if f.serverAuth.Some? {
      FieldIsText(if f.msgType in {5, 6, 8} then rest[..Find(rest, COLON)] else rest, f.serverAuth.value);
    } else {
      assert e.(serverAuth := f.serverAuth) == e;
    }
    next := ParseAuth(st).value;
  }

  lemma TimeoutParsed(st: State, f: Fields)
    requires TimeoutAccepted(st.rest, f) && st.fields.msgType == f.msgType && st.fields.timeout == 0
    ensures var r := ParseTimeout(st); r.Some? && r.value.fields == st.fields.(timeout := f.timeout)
  {
    hide Bounded;
    if f.msgType in {5, 6, 8} {
      BoundedUpTo(st.rest, 65536);
    } else {
      assert st.fields.(timeout := f.timeout) == st.fields;
    }
  }

  // ----- the table of parsers -----

  lemma Fold(aton: InetAton, sdp: bool, i: nat, st: State, next: State)
    requires i < ParserCount(sdp) && ParserAt(aton, sdp, i, st) == Some(next)
    ensures ParseFrom(aton, sdp, i, st) == ParseFrom(aton, sdp, i + 1, next)
  {
    hide ParserAt;
  }

  lemma SdpParsed(aton: InetAton, text: Bytes, f: Fields)
    requires SdpAccepted(aton, text, f)
    ensures var r := ParseFrom(aton, true, 0, State(EMPTY, text)); r.Some? && r.value.fields == f
  {
    hide ParseFrom, RestAt, FieldAt, ParseRand, ParseTimestamp, ParseMsgType, ParseMsg, ParseNat, ParseAuth;
    hide NumberAt, MessageAccepted, NatAccepted, AuthAccepted, TypeAt, RandAt;
    RandParsed(text, f);
    var b := State(EMPTY.(rand := f.rand), RestAt(text, 1));
    Fold(aton, true, 0, State(EMPTY, text), b);
    TimestampParsed(text, 1, b.fields, f.timestamp);
    var c := State(b.fields.(timestamp := f.timestamp), RestAt(text, 2));
    Fold(aton, true, 1, b, c);
    TypeParsed(text, 2, c.fields, f.msgType);
    var d := State(c.fields.(msgType := f.msgType), RestAt(text, 3));
    Fold(aton, true, 2, c, d);
    MessageParsed(aton, text, 3, d.fields, f);
    var e := State(d.fields.(message := f.message), RestAt(text, 4));
    Fold(aton, true, 3, d, e);
    NatParsed(aton, text, 4, e.fields, f);
    var g := State(e.fields.(natAccess := f.natAccess), RestAt(text, 4 + NatFields(f)));
    Fold(aton, true, 4, e, g);
    var last := AuthParsed(text, 4 + NatFields(f), g.fields, f);
    Fold(aton, true, 5, g, last);
    ParsedAll(aton, true, last);
    assert last.fields == f;
  }

  lemma LegacyParsed(aton: InetAton, text: Bytes, f: Fields)
    requires LegacyAccepted(aton, text, f)
    ensures var r := ParseFrom(aton, false, 0, State(EMPTY, text)); r.Some? && r.value.fields == f
  {
    hide ParseFrom, RestAt, FieldAt, ParseRand, ParseTimestamp, ParseMsgType, ParseUsername, ParseVersion;
    hide NumberAt, TailAccepted, TimeoutAccepted, TypeAt, RandAt, Encodes, ValidUsername;
    RandParsed(text, f);
    var b := State(EMPTY.(rand := f.rand), RestAt(text, 1));
    Fold(aton, false, 0, State(EMPTY, text), b);
    UsernameParsed(text, b.fields, f.username);
    var c := State(b.fields.(username := f.username), RestAt(text, 2));
    Fold(aton, false, 1, b, c);
    TimestampParsed(text, 2, c.fields, f.timestamp);
    var d := State(c.fields.(timestamp := f.timestamp), RestAt(text, 3));
    Fold(aton, false, 2, c, d);
    VersionParsed(text, d.fields);
    var e := State(d.fields.(version := f.version), RestAt(text, 4));
    Fold(aton, false, 3, d, e);
    TypeParsed(text, 4, e.fields, f.msgType);
    var g := State(e.fields.(msgType := f.msgType), RestAt(text, 5));
    Fold(aton, false, 4, e, g);
    LegacyTailParsed(aton, text, g.fields, f);
  }

  lemma LegacyTailParsed(aton: InetAton, text: Bytes, e: Fields, f: Fields)
    requires TailAccepted(aton, text, 5, f)
    requires TimeoutAccepted(RestAt(text, 6 + NatFields(f) + AuthFields(f)), f)
    requires e == f.(message := [], natAccess := None, serverAuth := None, timeout := 0)
    ensures var r := ParseFrom(aton, false, 5, State(e, RestAt(text, 5))); r.Some? && r.value.fields == f
  {
    hide ParseFrom, RestAt, FieldAt, ParseMsg, ParseNat, ParseAuth, ParseTimeout, AllDigits, Bounded;
    hide MessageAccepted, NatAccepted, AuthAccepted, TimeoutAccepted;
    MessageParsed(aton, text, 5, e, f);
    var g := State(e.(message := f.message), RestAt(text, 6));
    Fold(aton, false, 5, State(e, RestAt(text, 5)), g);
    NatParsed(aton, text, 6, g.fields, f);
    var h := State(g.fields.(natAccess := f.natAccess), RestAt(text, 6 + NatFields(f)));
    Fold(aton, false, 6, g, h);
    var i := AuthParsed(text, 6 + NatFields(f), h.fields, f);
    Fold(aton, false, 7, h, i);
    NoTimeout(i.rest, RestAt(text, 6 + NatFields(f) + AuthFields(f)), f);
    TimeoutParsed(i, f);
    var j := ParseTimeout(i).value;
    Fold(aton, false, 8, i, j);
    ParsedAll(aton, false, j);
    assert j.fields == f;
  }

  // Only the types 5, 6 and 8 look at what is left.
  lemma NoTimeout(r: Bytes, s: Bytes, f: Fields)
    requires TimeoutAccepted(s, f) && (f.msgType in {5, 6, 8} ==> r == s)
    ensures TimeoutAccepted(r, f)
  {
    hide Bounded, AllDigits;
  }

  // ----- separators -----

  lemma CountOne(s: Bytes)
    requires Find(s, COLON) < |s|
    ensures Count(s, COLON) == 1 + Count(s[Find(s, COLON) + 1..], COLON)
  {
    hide Find, Count;
    var c := Find(s, COLON);
    assert s == s[..c] + [COLON] + s[c + 1..];
    CountAppend(s[..c] + [COLON], s[c + 1..], COLON);
    CountAppend(s[..c], [COLON], COLON);
    CountNone(s[..c]);
    CountSelf();
  }

  lemma CountSelf()
    ensures Count([COLON], COLON) == 1
  {
    assert [COLON][..0] == [];
    assert Count([], COLON) == 0;
  }

  lemma {:induction false} CountNone(s: Bytes)
    requires NoColon(s)
    ensures Count(s, COLON) == 0
  {
    if s != [] {
      CountNone(s[..|s| - 1]);
    }
  }

  // Counting up to n separators counts them all if there are no more than n.
  lemma {:induction false} ColonsCounted(s: Bytes, n: nat)
    ensures Colons(s, n) == if Count(s, COLON) <= n then Count(s, COLON) else n
    decreases n
  {
    hide Find, Count;
    var c := Find(s, COLON);
    if c == |s| {
      CountNone(s);
    } else {
      CountOne(s);
      if n > 0 {
        ColonsCounted(s[c + 1..], n - 1);
      }
    }
  }

  lemma {:induction false} LastIs(s: Bytes, n: nat, p: nat)
    requires 0 < p <= |s| && s[p - 1] == COLON && NoColon(s[p..]) && Count(s, COLON) <= n
    ensures AfterColons(s, n) == p
    decreases n
  {
    hide Count;
    var c := Find(s, COLON);
    assert c <= p - 1;
    CountOne(s);
    var r := s[c + 1..];
    if c == p - 1 {
      assert r == s[p..];
      FindIs(r, COLON, |r|);
    } else {
      assert r[p - c - 1..] == s[p..];
      LastIs(r, n - 1, p - c - 1);
    }
  }

  // Every field but the last ends in a separator.
  lemma {:induction false} FieldsCounted(text: Bytes, i: nat)
    requires RestAt(text, i) != []
    ensures Count(text, COLON) == i + Count(RestAt(text, i), COLON)
  {
    hide Find, Count;
    if i > 0 {
      CountOne(RestAt(text, i - 1));
      FieldsCounted(text, i - 1);
    }
  }

  // What is accepted has neither too few separators nor too many.
  lemma SeparatorsOfAccepted(aton: InetAton, sdp: bool, text: Bytes, f: Fields)
    requires if sdp then SdpAccepted(aton, text, f) else LegacyAccepted(aton, text, f)
    ensures (if sdp then 3 else 5) <= Count(text, COLON) <= 8
  {
    hide Count, RestAt, NatAccepted, AuthAccepted, TimeoutAccepted, Encodes, MessageOfType, ValidUsername, RandAt;
    var i := if sdp then 2 else 4;
    FieldsCounted(text, i);
    FieldsCounted(text, i + 1);
    ColonsCounted(RestAt(text, i), MAX_SPA_FIELDS + 2);
  }

  lemma SeparatorsOfText(text: Bytes, digest: Bytes)
    requires NoColon(digest) && Count(text, COLON) <= 8
    ensures var x := text + [COLON] + digest;
            NumFields(x) == 1 + Count(text, COLON) && LastField(x) == |text| + 1
  {
    hide Count;
    var x := text + [COLON] + digest;
    CountAppend(text + [COLON], digest, COLON);
    CountAppend(text, [COLON], COLON);
    CountNone(digest);
    CountSelf();
    ColonsCounted(x, MAX_SPA_FIELDS + 2);
    assert x[|text| + 1..] == digest;
    LastIs(x, MAX_SPA_FIELDS + 2, |text| + 1);
  }

  // ----- the decoder -----

  // A buffer of the described form is decoded, to what is described.
  lemma DecodeComplete(h: Hashes.Functions, aton: InetAton, sdp: bool, pt: Bytes, d: Decoded)
    requires DecodedFrom(h, aton, sdp, pt, d)
    ensures Decode(h, aton, sdp, pt) == Some(d)
  {
    hide ParseFrom, Hashes.Digest, Base64.Unpadded, StrLen, NumFields, LastField, Chopped, Digested, Count;
    hide SdpAccepted, LegacyAccepted, AlgorithmOf, NoColon;
    var x, n := CStr(pt), |d.digest|;
    var text := x[..|x| - n - 1];
    DigestTextFacts(h, d.algorithm, Digested(pt, text, n));
    SeparatorsOfAccepted(aton, sdp, text, d.fields);
    SeparatorsOfText(text, d.digest);
    DigestLengths(n, d.algorithm);
    assert text == pt[..|text|];
    ChoppedIs(pt, |text| + 1, n);
    assert x[|text| + 1..] == d.digest;
    if sdp {
      SdpParsed(aton, text, d.fields);
    } else {
      LegacyParsed(aton, text, d.fields);
    }
  }

  // What is decoded is exactly what is described.
  lemma DecodeExactly(h: Hashes.Functions, aton: InetAton, sdp: bool, pt: Bytes, d: Decoded)
    ensures Decode(h, aton, sdp, pt) == Some(d) <==> DecodedFrom(h, aton, sdp, pt, d)
  {
    hide Decode, DecodedFrom;
    if Decode(h, aton, sdp, pt).Some? {
      DecodeSound(h, aton, sdp, pt);
    }
    if DecodedFrom(h, aton, sdp, pt, d) {
      DecodeComplete(h, aton, sdp, pt, d);
    }
  }
}
