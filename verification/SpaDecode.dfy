/**
 The decoder of lib/fko_decode.c. Each parser is a function of the fields so far and
 the rest of the text; the methods that move a cursor through the buffer are proved to
 compute it, with the cursor at most one byte past the end of the text.
 */
module SpaDecode {
  import opened Common
  import opened SpaMessage
  import opened SpaFields
  import Base64
  import Hashes

  const MAX_SPA_FIELDS := 9
  const MIN_SPA_FIELDS := 6
  const MIN_SDP_SPA_FIELDS := 4
  const MAX_TIMESTAMP_SIZE := 12
  const MAX_VERSION_SIZE := 8
  const MAX_TYPE_SIZE := 2
  const MAX_TIMEOUT := 65536
  const MIN_MSG_SIZE := 36
  const FIELD_PARSERS := 9
  const SDP_FIELD_PARSERS := 6

  predicate ValidMsgLen(n: int) { MIN_MSG_SIZE <= n < MAX_MSG_SIZE }

  datatype State = State(fields: Fields, rest: Bytes)

  // ----- counting fields -----

  // The colons in a text, up to n of them.
  function Colons(s: Bytes, n: nat): (k: nat)
    ensures k <= n
    decreases n
  {
    var c := Find(s, COLON);
    if n == 0 || c == |s| then 0 else 1 + Colons(s[c + 1..], n - 1)
  }

  // The position after the last of the first n colons.
  function AfterColons(s: Bytes, n: nat): (p: nat)
    ensures p <= |s|
    decreases n
  {
    var c := Find(s, COLON);
    if n == 0 || c == |s| then 0 else c + 1 + AfterColons(s[c + 1..], n - 1)
  }

  function NumFields(s: Bytes): nat { Colons(s, MAX_SPA_FIELDS + 2) }

  function LastField(s: Bytes): (p: nat)
    ensures p <= |s|
  {
    AfterColons(s, MAX_SPA_FIELDS + 2)
  }

  lemma {:induction false} ColonsAfter(s: Bytes, n: nat)
    ensures Colons(s, n) > 0 <==> AfterColons(s, n) > 0
    ensures AfterColons(s, n) > 0 ==> s[AfterColons(s, n) - 1] == COLON
    decreases n
  {
    hide Find;
    var c := Find(s, COLON);
    if n > 0 && c < |s| {
      ColonsAfter(s[c + 1..], n - 1);
    }
  }

  // ----- the parsers -----

  // A base64 field as a C string.
  function FieldText(s: Bytes): Option<Bytes> {
    match Base64.Decoded(s)
    case None => None
    case Some(b) => Some(CStr(b))
  }

  function ParseRand(st: State): Option<State> {
    var t := Find(st.rest, COLON);
    if t < RAND_VAL_SIZE then None
    else Some(State(st.fields.(rand := st.rest[..RAND_VAL_SIZE]), Advance(st.rest, t)))
  }

  function ParseUsername(st: State): Option<State> {
    var t := Find(st.rest, COLON);
    if !(1 <= t <= MAX_USERNAME_SIZE) then None else
    match FieldText(st.rest[..t])
    case None => None
    case Some(u) =>
      if ValidUsername(u) then Some(State(st.fields.(username := u), Advance(st.rest, t))) else None
  }

  function ParseTimestamp(st: State): Option<State> {
    var t := Find(st.rest, COLON);
    if !(1 <= t <= MAX_TIMESTAMP_SIZE) then None else
    match Bounded(st.rest[..t], 0, -1)
    case None => None
    case Some(ts) => Some(State(st.fields.(timestamp := ts), Advance(st.rest, t)))
  }

  function ParseVersion(st: State): Option<State> {
    var t := Find(st.rest, COLON);
    if !(1 <= t <= MAX_VERSION_SIZE) then None
    else Some(State(st.fields.(version := st.rest[..t]), Advance(st.rest, t)))
  }

  // How many colons may follow the type.
  function FieldLimit(msgType: int): nat {
    if msgType == COMMAND_MSG || msgType == SERVICE_ACCESS_MSG || msgType == ACCESS_MSG then 2
    else if msgType == CLIENT_TIMEOUT_NAT_ACCESS_MSG || msgType == CLIENT_TIMEOUT_LOCAL_NAT_ACCESS_MSG then 4
    else 3
  }

  function ParseMsgType(st: State): Option<State> {
    var t := Find(st.rest, COLON);
    if !(1 <= t <= MAX_TYPE_SIZE) then None else
    match Bounded(st.rest[..t], 0, LAST_MSG_TYPE - 1)
    case None => None
    case Some(ty) =>
      if NumFields(st.rest) > FieldLimit(ty) then None
      else Some(State(st.fields.(msgType := ty), Advance(st.rest, t)))
  }

  function ParseMsg(aton: InetAton, st: State): Option<State> {
    var t := Find(st.rest, COLON);
    if !(1 <= t <= MAX_MESSAGE_SIZE) then None else
    match FieldText(st.rest[..t])
    case None => None
    case Some(m) =>
      if !ValidMessage(aton, st.fields.msgType, m) then None
      else Some(State(st.fields.(message := m), Advance(st.rest, t)))
  }

  function ParseNat(aton: InetAton, st: State): Option<State> {
    var t := Find(st.rest, COLON);
    if !NatType(st.fields.msgType) then Some(st) else
    if !(1 <= t <= MAX_MESSAGE_SIZE) then None else
    match FieldText(st.rest[..t])
    case None => None
    case Some(m) =>
      if NatMessage(aton, m) then Some(State(st.fields.(natAccess := Some(m)), Advance(st.rest, t))) else None
  }

  function ParseAuth(st: State): Option<State> {
    var t := Find(st.rest, COLON);
    if st.rest == [] then Some(st) else
    if |st.rest| > MAX_MESSAGE_SIZE then None else
    if TimeoutType(st.fields.msgType) then
      if t == |st.rest| then Some(st) else
      match FieldText(st.rest[..t])
      case None => None
      case Some(a) => Some(State(st.fields.(serverAuth := Some(a)), Advance(st.rest, t)))
    else
      match FieldText(st.rest)
      case None => None
      case Some(a) => Some(st.(fields := st.fields.(serverAuth := Some(a))))
  }

  function ParseTimeout(st: State): Option<State> {
    if !TimeoutType(st.fields.msgType) then Some(st) else
    if !(1 <= |st.rest| <= MAX_MESSAGE_SIZE && AllDigits(st.rest)) then None else
    match Bounded(st.rest, 0, MAX_TIMEOUT)
    case None => None
    case Some(v) => Some(st.(fields := st.fields.(timeout := v)))
  }

  function ParserCount(sdp: bool): nat { if sdp then SDP_FIELD_PARSERS else FIELD_PARSERS }

  // The i-th entry of the table of parsers.
  function ParserAt(aton: InetAton, sdp: bool, i: nat, st: State): Option<State>
    requires i < ParserCount(sdp)
  {
    if i == 0 then ParseRand(st) else
    if sdp then
      match i
      case 1 => ParseTimestamp(st)
      case 2 => ParseMsgType(st)
      case 3 => ParseMsg(aton, st)
      case 4 => ParseNat(aton, st)
      case _ => ParseAuth(st)
    else
      match i
      case 1 => ParseUsername(st)
      case 2 => ParseTimestamp(st)
      case 3 => ParseVersion(st)
      case 4 => ParseMsgType(st)
      case 5 => ParseMsg(aton, st)
      case 6 => ParseNat(aton, st)
      case 7 => ParseAuth(st)
      case _ => ParseTimeout(st)
  }

  // The parsers from the i-th on.
  function ParseFrom(aton: InetAton, sdp: bool, i: nat, st: State): Option<State>
    requires i <= ParserCount(sdp)
    decreases ParserCount(sdp) - i
  {
    if i == ParserCount(sdp) then Some(st) else
    match ParserAt(aton, sdp, i, st)
    case None => None
    case Some(next) => ParseFrom(aton, sdp, i + 1, next)
  }

  // ----- the whole decoder -----

  predicate IsPrint(c: bv8) { 0x20 <= c <= 0x7e }

  predicate AllPrint(s: Bytes) { forall i | 0 <= i < |s| :: IsPrint(s[i]) }

  function AlgorithmOf(len: nat): Option<Hashes.Algorithm> {
    if len == 22 then Some(Hashes.MD5)
    else if len == 27 then Some(Hashes.SHA1)
    else if len == 43 then Some(Hashes.SHA256)
    else if len == 64 then Some(Hashes.SHA384)
    else if len == 86 then Some(Hashes.SHA512)
    else None
  }

  // The length of a stripped digest tells its type: these are the lengths base64 gives to the five digests.
  lemma DigestLengths(n: nat, a: Hashes.Algorithm)
    ensures AlgorithmOf(n) == Some(a) <==> n == Base64.SextetCount(Hashes.DigestLen(a))
    ensures Hashes.B64Len(a) == Base64.SextetCount(Hashes.DigestLen(a))
  {
  }

  function DigestText(h: Hashes.Functions, a: Hashes.Algorithm, data: Bytes): Bytes {
    Base64.Unpadded(Hashes.Digest(h, a, data))
  }

  // The message buffer once the t bytes from the last separator on are cleared.
  function Chopped(pt: Bytes, p: nat, t: nat): (c: Bytes)
    requires 0 < p <= p - 1 + t <= |pt|
    ensures |c| == |pt|
  {
    pt[..p - 1] + Zeros(t) + pt[p - 1 + t..]
  }

  datatype Decoded = Decoded(fields: Fields, algorithm: Hashes.Algorithm, digest: Bytes)

  // Decoding a decrypted message of |pt| bytes, whose text ends at its first NUL if it has one.
  function Decode(h: Hashes.Functions, aton: InetAton, sdp: bool, pt: Bytes): Option<Decoded> {
    var x := CStr(pt);
    if !ValidMsgLen(|pt|) || !AllPrint(x) then None else
    if NumFields(x) < (if sdp then MIN_SDP_SPA_FIELDS else MIN_SPA_FIELDS) then None else
    var p := LastField(x);
    match AlgorithmOf(|x| - p)
    case None => None
    case Some(a) =>
      var t := |x| - p;
      ColonsAfter(x, MAX_SPA_FIELDS + 2);
      if DigestText(h, a, Chopped(pt, p, t)[..|pt| - t - 1]) != x[p..] then None else
      match ParseFrom(aton, sdp, 0, State(EMPTY, x[..p - 1]))
      case None => None
      case Some(st) => Some(Decoded(st.fields, a, x[p..]))
  }

  // ----- the cursor -----

  class FieldParser {
    const buf: array<bv8>
    const tbuf: array<bv8>
    const aton: InetAton
    var ndx: nat
    var fields: Fields
    ghost const end: nat  // where the text ends

    // The text is followed by two NULs and the cursor is at most on the second of them.
    ghost predicate Valid()
      reads this, buf
    {
      && buf != tbuf && tbuf.Length == TMP_BUF_SIZE
      && end + 1 < buf.Length && buf[end] == 0 && buf[end + 1] == 0
      && (forall i | 0 <= i < end :: buf[i] != 0)
      && ndx <= end + 1
    }

    ghost function Rest(): Bytes
      requires Valid()
      reads this, buf
    {
      if ndx <= end then buf[ndx..end] else []
    }

    ghost function View(): State
      requires Valid()
      reads this, buf
    {
      State(fields, Rest())
    }

    constructor (aton: InetAton, buf: array<bv8>, tbuf: array<bv8>, ghost end: nat, fields: Fields)
      requires buf != tbuf && tbuf.Length == TMP_BUF_SIZE
      requires end + 1 < buf.Length && buf[end] == 0 && buf[end + 1] == 0
      requires forall i | 0 <= i < end :: buf[i] != 0
      ensures Valid() && View() == State(fields, buf[..end])
      ensures this.buf == buf && this.tbuf == tbuf && this.aton == aton && this.end == end
    {
      this.aton, this.buf, this.tbuf, this.end := aton, buf, tbuf, end;
      this.ndx, this.fields := 0, fields;
    }

    // strcspn(ndx, ":")
    method Span() returns (t: nat)
      requires Valid()
      ensures t == Find(Rest(), COLON)
    {
      t := 0;
      while buf[ndx + t] != 0 && buf[ndx + t] != COLON
        invariant ndx + t <= end || (t == 0 && ndx == end + 1)
        invariant forall i | 0 <= i < t :: Rest()[i] != COLON
        decreases end + 1 - (ndx + t)
      {
        t := t + 1;
      }
      FindIs(Rest(), COLON, t);
    }

    // strlen(ndx)
    method Length() returns (t: nat)
      requires Valid()
      ensures t == |Rest()|
    {
      t := 0;
      while buf[ndx + t] != 0
        invariant ndx + t <= end || (t == 0 && ndx == end + 1)
        decreases end + 1 - (ndx + t)
      {
        t := t + 1;
      }
    }

    // strlcpy(tbuf, ndx, t + 1)
    method Copy(t: nat) returns (s: Bytes)
      requires Valid() && t <= |Rest()| && t + 1 <= tbuf.Length
      modifies tbuf
      ensures Valid() && View() == old(View()) && s == Rest()[..t]
    {
      ghost var r := Rest();
      for i := 0 to t
        invariant Valid() && Rest() == r && tbuf[..i] == r[..i]
      {
        tbuf[i] := buf[ndx + i];
      }
      tbuf[t] := 0;
      s := tbuf[..t];
    }

    method Skip(t: nat)
      requires Valid() && t <= |Rest()| && ndx <= end
      modifies this`ndx
      ensures Valid() && Rest() == Advance(old(Rest()), t)
    {
      ndx := ndx + t + 1;
    }

    // b64_decode(tbuf, field) into a buffer of t + 1 zero bytes
    method DecodeField(t: nat) returns (r: Option<Bytes>)
      requires Valid() && t <= |Rest()| && t <= MAX_MESSAGE_SIZE
      modifies tbuf
      ensures Valid() && View() == old(View()) && r == FieldText(Rest()[..t])
    {
      hide Base64.Decoded;
      var s := Copy(t);
      var out := new bv8[t + 1](_ => 0);
      var len := Base64.Decode(s, out);
      if len < 0 {
        return None;
      }
      ghost var b := out[..len];
      TextOfBuffer(out[..], len);
      r := Some(CStr(out[..]));
    }

    // num_fields(ndx)
    method RemainingFields() returns (n: nat)
      requires Valid()
      ensures n == NumFields(Rest())
    {
      hide NumFields;
      var len := Length();
      assert buf[ndx..ndx + len] == Rest();
      n := CountFields(buf[ndx..ndx + len]);
    }

    method RandVal() returns (ok: bool)
      requires Valid()
      modifies this
      ensures Valid() && ok == ParseRand(old(View())).Some?
      ensures ok ==> View() == ParseRand(old(View())).value
    {
      var t := Span();
      if t < RAND_VAL_SIZE {
        return false;
      }
      fields := fields.(rand := buf[ndx..ndx + RAND_VAL_SIZE]);
      Skip(t);
      ok := true;
    }

    method Username() returns (ok: bool)
      requires Valid()
      modifies this, tbuf
      ensures Valid() && ok == ParseUsername(old(View())).Some?
      ensures ok ==> View() == ParseUsername(old(View())).value
    {
      hide ValidUsername, FieldText;
      var t := Span();
      if t < 1 || t > MAX_USERNAME_SIZE {
        return false;
      }
      var u := DecodeField(t);
      if u.None? {
        return false;
      }
      fields := fields.(username := u.value);
      ok := ValidateUsername(u.value);
      if ok {
        Skip(t);
      }
    }

    method Timestamp() returns (ok: bool)
      requires Valid()
      modifies this, tbuf
      ensures Valid() && ok == ParseTimestamp(old(View())).Some?
      ensures ok ==> View() == ParseTimestamp(old(View())).value
    {
      hide Bounded;
      var t := Span();
      if t < 1 || t > MAX_TIMESTAMP_SIZE {
        return false;
      }
      var s := Copy(t);
      var v := Bounded(s, 0, -1);
      if v.None? {
        return false;
      }
      fields := fields.(timestamp := v.value);
      Skip(t);
      ok := true;
    }

    method Version() returns (ok: bool)
      requires Valid()
      modifies this
      ensures Valid() && ok == ParseVersion(old(View())).Some?
      ensures ok ==> View() == ParseVersion(old(View())).value
    {
      var t := Span();
      if t < 1 || t > MAX_VERSION_SIZE {
        return false;
      }
      fields := fields.(version := buf[ndx..ndx + t]);
      Skip(t);
      ok := true;
    }

    method MsgType() returns (ok: bool)
      requires Valid()
      modifies this, tbuf
      ensures Valid() && ok == ParseMsgType(old(View())).Some?
      ensures ok ==> View() == ParseMsgType(old(View())).value
    {
      hide Bounded, NumFields, Find, Advance, FieldLimit;
      var t := Span();
      if t < 1 || t > MAX_TYPE_SIZE {
        return false;
      }
      var s := Copy(t);
      var v := Bounded(s, 0, LAST_MSG_TYPE - 1);
      if v.None? {
        return false;
      }
      fields := fields.(msgType := v.value);
      var remaining := RemainingFields();
      if remaining > FieldLimit(v.value) {
        return false;
      }
      Skip(t);
      ok := true;
    }

    method Message() returns (ok: bool)
      requires Valid()
      modifies this, tbuf
      ensures Valid() && ok == ParseMsg(aton, old(View())).Some?
      ensures ok ==> View() == ParseMsg(aton, old(View())).value
    {
      hide ValidMessage, FieldText;
      var t := Span();
      if t < 1 || t > MAX_MESSAGE_SIZE {
        return false;
      }
      var m := DecodeField(t);
      if m.None? {
        return false;
      }
      fields := fields.(message := m.value);
      ok := CheckMessage(aton, fields.msgType, m.value);
      if ok {
        Skip(t);
      }
    }

    method NatAccess() returns (ok: bool)
      requires Valid()
      modifies this, tbuf
      ensures Valid() && ok == ParseNat(aton, old(View())).Some?
      ensures ok ==> View() == ParseNat(aton, old(View())).value
    {
      hide NatMessage, FieldText;
      if !NatType(fields.msgType) {
        return true;
      }
      var t := Span();
      if t < 1 || t > MAX_MESSAGE_SIZE {
        return false;
      }
      var m := DecodeField(t);
      if m.None? {
        return false;
      }
      fields := fields.(natAccess := m);
      ok := ValidateNatAccessMsg(aton, m.value);
      if ok {
        Skip(t);
      }
    }

    method ServerAuth() returns (ok: bool)
      requires Valid()
      modifies this, tbuf
      ensures Valid() && ok == ParseAuth(old(View())).Some?
      ensures ok ==> View() == ParseAuth(old(View())).value
    {
      hide FieldText, Find, Advance, TimeoutType;
      var t := Length();
      if t == 0 {
        return true;
      }
      if t > MAX_MESSAGE_SIZE {
        return false;
      }
      if TimeoutType(fields.msgType) {
        var c := Span();
        if c < t {
          var a := DecodeField(c);
          if a.None? {
            return false;
          }
          fields := fields.(serverAuth := a);
          Skip(c);
        }
      } else {
        var a := DecodeField(t);
        assert Rest()[..t] == Rest();
        if a.None? {
          return false;
        }
        fields := fields.(serverAuth := a);
      }
      ok := true;
    }

    method ClientTimeout() returns (ok: bool)
      requires Valid()
      modifies this
      ensures Valid() && ok == ParseTimeout(old(View())).Some?
      ensures ok ==> View() == ParseTimeout(old(View())).value
    {
      hide Bounded, IsDigit;
      if !TimeoutType(fields.msgType) {
        return true;
      }
      var t := Length();
      if t < 1 || t > MAX_MESSAGE_SIZE {
        return false;
      }
      var s := buf[ndx..ndx + t];
      for i := 0 to t
        invariant forall j | 0 <= j < i :: IsDigit(s[j])
      {
        if !IsDigit(s[i]) {
          return false;
        }
      }
      var v := Bounded(s, 0, MAX_TIMEOUT);
      if v.None? {
        return false;
      }
      fields := fields.(timeout := v.value);
      ok := true;
    }

    method ParserNumber(sdp: bool, i: nat) returns (ok: bool)
      requires Valid() && i < ParserCount(sdp)
      modifies this, tbuf
      ensures Valid() && ok == ParserAt(aton, sdp, i, old(View())).Some?
      ensures ok ==> View() == ParserAt(aton, sdp, i, old(View())).value
    {
      hide ParseRand, ParseUsername, ParseTimestamp, ParseVersion, ParseMsgType;
      hide ParseMsg, ParseNat, ParseAuth, ParseTimeout;
      var n := if sdp then [0, 2, 4, 5, 6, 7][i] else i;
      match n
      case 0 => ok := RandVal();
      case 1 => ok := Username();
      case 2 => ok := Timestamp();
      case 3 => ok := Version();
      case 4 => ok := MsgType();
      case 5 => ok := Message();
      case 6 => ok := NatAccess();
      case 7 => ok := ServerAuth();
      case _ => ok := ClientTimeout();
    }

    // The loop over the table of parsers.
    method Run(sdp: bool) returns (ok: bool)
      requires Valid()
      modifies this, tbuf
      ensures Valid() && ok == ParseFrom(aton, sdp, 0, old(View())).Some?
      ensures ok ==> View() == ParseFrom(aton, sdp, 0, old(View())).value
    {
      hide ParserAt;
      ghost var start := View();
      var i := 0;
      while i < ParserCount(sdp)
        invariant Valid() && i <= ParserCount(sdp)
        invariant ParseFrom(aton, sdp, i, View()) == ParseFrom(aton, sdp, 0, start)
      {
        ok := ParserNumber(sdp, i);
        if !ok {
          return;
        }
        i := i + 1;
      }
      ok := true;
    }
  }

  lemma TextOfBuffer(out: Bytes, len: nat)
    requires len < |out| && out[len] == 0
    ensures CStr(out) == CStr(out[..len])
  {
    var n := StrLen(out);
    StrLenUnique(out[..len], n);
    assert out[..n] == out[..len][..n];
  }

  // One more colon, from position at to position c.
  lemma ColonStep(str: Bytes, at: nat, c: nat, n: nat)
    requires at <= |str| && c == at + Find(str[at..], COLON)
    ensures n == 0 || c == |str| ==> Colons(str[at..], n) == 0 && AfterColons(str[at..], n) == 0
    ensures n > 0 && c < |str| ==>
              && Colons(str[at..], n) == 1 + Colons(str[c + 1..], n - 1)
              && AfterColons(str[at..], n) == c + 1 - at + AfterColons(str[c + 1..], n - 1)
  {
    hide Find;
    if c < |str| {
      assert str[at..][c + 1 - at..] == str[c + 1..];
    }
  }

  // num_fields
  method CountFields(str: Bytes) returns (i: nat)
    ensures i == NumFields(str)
  {
    hide Find, Colons, AfterColons;
    i := 0;
    var at: nat := 0;
    assert str[0..] == str;
    while i <= MAX_SPA_FIELDS + 1
      invariant i <= MAX_SPA_FIELDS + 2 && at <= |str|
      invariant NumFields(str) == i + Colons(str[at..], MAX_SPA_FIELDS + 2 - i)
    {
      var c := StrChr(str, at, COLON);
      ColonStep(str, at, c, MAX_SPA_FIELDS + 2 - i);
      if c == |str| {
        return;
      }
      at, i := c + 1, i + 1;
    }
    var c := StrChr(str, at, COLON);
    ColonStep(str, at, c, 0);
  }

  // last_field
  method PositionLast(str: Bytes) returns (pos: nat)
    ensures pos == LastField(str)
  {
    hide Find, Colons, AfterColons;
    var i: nat := 0;
    pos := 0;
    assert str[0..] == str;
    while i <= MAX_SPA_FIELDS + 1
      invariant i <= MAX_SPA_FIELDS + 2 && pos <= |str|
      invariant LastField(str) == pos + AfterColons(str[pos..], MAX_SPA_FIELDS + 2 - i)
    {
      var c := StrChr(str, pos, COLON);
      ColonStep(str, pos, c, MAX_SPA_FIELDS + 2 - i);
      if c == |str| {
        return;
      }
      pos, i := c + 1, i + 1;
    }
    ghost var c := pos + Find(str[pos..], COLON);
    ColonStep(str, pos, c, 0);
  }

  // ----- fko_decode_spa_data -----

  // The chopped buffer as the parsers see it.
  lemma ChoppedText(buf: seq<bv8>, was: seq<bv8>, x: Bytes, p: nat)
    requires |x| < |was| && was[..|x|] == x && IsCString(x) && 0 < p && p + 2 <= |x|
    requires buf == was[..p - 1] + Zeros(|x| - p) + was[|x| - 1..]
    ensures p < |buf| && buf[p - 1] == 0 && buf[p] == 0 && buf[..p - 1] == x[..p - 1]
    ensures forall i | 0 <= i < p - 1 :: buf[i] != 0
  {
    assert buf[..p - 1] == was[..p - 1] == x[..p - 1];
    forall i | 0 <= i < p - 1 ensures buf[i] != 0 {
      assert buf[i] == x[i];
    }
  }

  lemma ChoppedPrefix(buf: seq<bv8>, was: seq<bv8>, len: nat, p: nat, t: nat)
    requires 0 < p <= p - 1 + t < len <= |was|
    requires buf == was[..p - 1] + Zeros(t) + was[p - 1 + t..]
    ensures |buf| == |was| && buf[..len - t - 1] == Chopped(was[..len], p, t)[..len - t - 1]
  {
    assert buf[..len] == Chopped(was[..len], p, t);
  }

  method DigestMatches(h: Hashes.Functions, a: Hashes.Algorithm, data: Bytes, digest: Bytes) returns (ok: bool)
    ensures ok == (DigestText(h, a, data) == digest)
  {
    var text := Base64.EncodeStripped(Hashes.Digest(h, a, data));
    ok := text == digest;
  }

  method DecodeSpaData(h: Hashes.Functions, aton: InetAton, sdp: bool, msg: array<bv8>, len: nat)
      returns (r: Option<Decoded>)
    requires len < msg.Length && msg[len] == 0
    modifies msg
    ensures r == Decode(h, aton, sdp, old(msg[..len]))
  {
    hide Hashes.Digest, Base64.Unpadded, Chopped, ParseFrom, LastField, NumFields, IsPrint, DigestText;
    ghost var pt := msg[..len];
    if !ValidMsgLen(len) {
      return None;
    }
    var x := CStr(msg[..]);
    TextOfBuffer(msg[..], len);
    assert msg[..][..len] == pt;
    for i := 0 to |x|
      invariant forall j | 0 <= j < i :: IsPrint(x[j])
    {
      if !IsPrint(x[i]) {
        return None;
      }
    }
    var n := CountFields(x);
    if n < (if sdp then MIN_SDP_SPA_FIELDS else MIN_SPA_FIELDS) {
      return None;
    }
    var p := PositionLast(x);
    var a := AlgorithmOf(|x| - p);
    if a.None? {
      return None;
    }
    SomeColon(x);
    r := VerifyAndParse(h, aton, sdp, msg, len, x, p, a.value);
  }

  lemma SomeColon(x: Bytes)
    requires NumFields(x) > 0
    ensures LastField(x) > 0
  {
    hide Colons, AfterColons;
    ColonsAfter(x, MAX_SPA_FIELDS + 2);
  }

  // Chops the digest off, checks it and runs the parsers.
  method VerifyAndParse(h: Hashes.Functions, aton: InetAton, sdp: bool, msg: array<bv8>, len: nat,
                        x: Bytes, p: nat, a: Hashes.Algorithm)
      returns (r: Option<Decoded>)
    requires len < msg.Length && |x| <= len && x == CStr(msg[..]) && 0 < p && p + 2 <= |x|
    modifies msg
    ensures var t := |x| - p;
            r == if DigestText(h, a, Chopped(old(msg[..len]), p, t)[..len - t - 1]) != x[p..] then None else
                 match ParseFrom(aton, sdp, 0, State(EMPTY, x[..p - 1]))
                 case None => None
                 case Some(st) => Some(Decoded(st.fields, a, x[p..]))
  {
    hide Hashes.Digest, Base64.Unpadded, ParseFrom, DigestText, Zeros, StrLen;
    ghost var was := msg[..];
    var t := |x| - p;
    CopyInto(msg, p - 1, Zeros(t));
    ChoppedText(msg[..], was, x, p);
    ChoppedPrefix(msg[..], was, len, p, t);
    var ok := DigestMatches(h, a, msg[..len - t - 1], x[p..]);
    if !ok {
      return None;
    }
    var tbuf := new bv8[TMP_BUF_SIZE](_ => 0);
    var parser := new FieldParser(aton, msg, tbuf, p - 1, EMPTY);
    ok := parser.Run(sdp);
    if !ok {
      return None;
    }
    r := Some(Decoded(parser.fields, a, x[p..]));
  }
}
