/**
 The encoder of lib/fko_encode.c. The fields are appended piece by piece to a buffer
 of 1024 bytes; the text is the colon-separated list of parts, cut to the buffer.
 */
module SpaEncode {
  import opened Common
  import opened SpaMessage
  import opened SpaFields
  import Base64

  function B64(s: Bytes): Bytes { Base64.Unpadded(s) }

  function OptPart(o: Option<Bytes>): (p: seq<Bytes>)
    ensures |p| <= 1
  {
    match o case None => [] case Some(s) => [B64(s)]
  }

  // The parts both modes end with.
  function Tail(f: Fields): seq<Bytes> { [B64(f.message)] + OptPart(f.natAccess) + OptPart(f.serverAuth) }

  predicate Printable(f: Fields) { 0 <= f.msgType < LAST_MSG_TYPE && f.timeout >= 0 }

  function TimeoutPart(f: Fields): (p: seq<Bytes>)
    requires Printable(f)
  {
    if f.timeout > 0 && f.msgType != COMMAND_MSG then [Dec(f.timeout)] else []
  }

  function LegacyParts(f: Fields): (p: seq<Bytes>)
    requires Printable(f)
  {
    [f.rand, B64(f.username), Dec(f.timestamp % TWO32), f.version, Dec(f.msgType)] + Tail(f) + TimeoutPart(f)
  }

  function SdpParts(f: Fields): (p: seq<Bytes>)
    requires Printable(f)
  {
    [f.rand, Dec(f.timestamp % TWO32), Dec(f.msgType)] + Tail(f)
  }

  // In legacy mode the type is first made to go with the timeout.
  function Normalised(f: Fields): (g: Fields)
    ensures Printable(f) ==> Printable(g)
  {
    f.(msgType := TypeFor(f.msgType, f.timeout))
  }

  function Cut(s: Bytes): (t: Bytes)
    ensures |t| < TMP_BUF_SIZE && t <= s
  {
    if |s| < TMP_BUF_SIZE then s else s[..TMP_BUF_SIZE - 1]
  }

  function EncodedText(f: Fields, sdp: bool): (t: Bytes)
    requires Printable(f)
    ensures |t| < TMP_BUF_SIZE
  {
    if sdp then Cut(Join(SdpParts(f))) else Cut(Join(LegacyParts(Normalised(f))))
  }

  // What the encoder checks before it starts.
  predicate Complete(f: Fields, sdp: bool) {
    && (!sdp ==> ValidUsername(f.username) && f.version != [])
    && f.message != []
    && (f.msgType == NAT_ACCESS_MSG ==> f.natAccess.Some? && f.natAccess.value != [])
  }

  predicate OptFits(o: Option<Bytes>) { o.Some? ==> |o.value| < MAX_MSG_SIZE }

  predicate Fits(f: Fields, sdp: bool) {
    && (!sdp ==> |f.username| < MAX_MSG_SIZE) && |f.message| < MAX_MSG_SIZE
    && OptFits(f.natAccess) && OptFits(f.serverAuth)
  }

  // ----- the buffer -----

  lemma CutCut(a: Bytes, b: Bytes)
    ensures Cut(Cut(a) + b) == Cut(a + b)
  {
    if |a| >= TMP_BUF_SIZE {
      assert (Cut(a) + b)[..TMP_BUF_SIZE - 1] == (a + b)[..TMP_BUF_SIZE - 1];
    }
  }

  // A text under construction: what has been written so far, cut to the buffer.
  ghost predicate Holds(tbuf: seq<bv8>, s: Bytes) {
    |tbuf| == TMP_BUF_SIZE && StrLen(tbuf) < TMP_BUF_SIZE && CStr(tbuf) == Cut(s)
  }

  // strlcat, and snprintf at the end of the text.
  method Append(tbuf: array<bv8>, s: Bytes, ghost before: Bytes)
    requires Holds(tbuf[..], before) && IsCString(s)
    modifies tbuf
    ensures Holds(tbuf[..], before + s)
  {
    hide StrLen, Cut;
    var len := StrLen(tbuf[..]);
    ghost var text := CStr(tbuf[..]);
    var n := 0;
    while n < |s| && len + n < TMP_BUF_SIZE - 1
      invariant 0 <= n <= |s| && len + n <= TMP_BUF_SIZE - 1
      invariant tbuf[..len + n] == text + s[..n]
    {
      tbuf[len + n] := s[n];
      n := n + 1;
    }
    ghost var now := tbuf[..len + n];
    tbuf[len + n] := 0;
    assert tbuf[..len + n] == now;
    CutCut(before, s);
    CutIs(text, s, n);
    NonZero(text, s[..n]);
    StrLenUnique(tbuf[..], len + n);
  }

  lemma CutIs(text: Bytes, s: Bytes, n: nat)
    requires n <= |s| && |text| + n <= TMP_BUF_SIZE - 1 && (n == |s| || |text| + n == TMP_BUF_SIZE - 1)
    ensures text + s[..n] == Cut(text + s)
  {
  }

  lemma NonZero(a: Bytes, b: Bytes)
    requires IsCString(a) && IsCString(b)
    ensures IsCString(a + b)
  {
  }

  lemma B64Text(s: Bytes)
    ensures IsCString(B64(s))
  {
    hide Base64.Unpadded, Base64.Padding;
    Base64.EncodedText(s);
    assert forall i | 0 <= i < |B64(s)| :: B64(s)[i] == Base64.Encoded(s)[i];
  }

  method AppendB64(tbuf: array<bv8>, s: Bytes, ghost before: Bytes) returns (ok: bool)
    requires Holds(tbuf[..], before)
    modifies tbuf
    ensures ok == (|s| < MAX_MSG_SIZE)
    ensures ok ==> Holds(tbuf[..], before + B64(s))
  {
    if |s| >= MAX_MSG_SIZE {
      return false;
    }
    var bs := Base64.EncodeStripped(s);
    B64Text(s);
    Append(tbuf, bs, before);
    ok := true;
  }

  lemma DecText(n: nat)
    ensures IsCString(Dec(n))
  {
    DecimalOfDec(n);
    assert forall i | 0 <= i < |Dec(n)| :: IsDigit(Dec(n)[i]);
  }

  // A separator and one more part.
  method AppendPart(tbuf: array<bv8>, s: Bytes, ghost parts: seq<Bytes>)
    requires |parts| > 0 && Holds(tbuf[..], Join(parts)) && IsCString(s)
    modifies tbuf
    ensures Holds(tbuf[..], Join(parts + [s]))
  {
    hide Holds, Join;
    Append(tbuf, [COLON], Join(parts));
    Append(tbuf, s, Join(parts) + [COLON]);
    JoinSnoc(parts, s);
  }

  method AppendB64Part(tbuf: array<bv8>, s: Bytes, ghost parts: seq<Bytes>) returns (ok: bool)
    requires |parts| > 0 && Holds(tbuf[..], Join(parts))
    modifies tbuf
    ensures ok == (|s| < MAX_MSG_SIZE)
    ensures ok ==> Holds(tbuf[..], Join(parts + [B64(s)]))
  {
    hide Holds, Join, B64;
    Append(tbuf, [COLON], Join(parts));
    ok := AppendB64(tbuf, s, Join(parts) + [COLON]);
    JoinSnoc(parts, B64(s));
  }

  method AppendOptPart(tbuf: array<bv8>, o: Option<Bytes>, ghost parts: seq<Bytes>) returns (ok: bool)
    requires |parts| > 0 && Holds(tbuf[..], Join(parts))
    modifies tbuf
    ensures ok == OptFits(o)
    ensures ok ==> Holds(tbuf[..], Join(parts + OptPart(o)))
  {
    hide Holds, Join, B64;
    ok := true;
    if o.Some? {
      ok := AppendB64Part(tbuf, o.value, parts);
    } else {
      assert parts + [] == parts;
    }
  }

  // The message, NAT access and server authentication parts.
  method AppendTail(tbuf: array<bv8>, f: Fields, ghost parts: seq<Bytes>) returns (ok: bool)
    requires |parts| > 0 && Holds(tbuf[..], Join(parts))
    modifies tbuf
    ensures ok == (|f.message| < MAX_MSG_SIZE && OptFits(f.natAccess) && OptFits(f.serverAuth))
    ensures ok ==> Holds(tbuf[..], Join(parts + Tail(f)))
  {
    hide Holds, Join, B64, OptPart, OptFits;
    ok := AppendB64Part(tbuf, f.message, parts);
    if !ok {
      return;
    }
    ghost var p := parts + [B64(f.message)];
    ok := AppendOptPart(tbuf, f.natAccess, p);
    if !ok {
      return;
    }
    ok := AppendOptPart(tbuf, f.serverAuth, p + OptPart(f.natAccess));
    assert p + OptPart(f.natAccess) + OptPart(f.serverAuth) == parts + Tail(f);
  }

  method Start(rand: Bytes) returns (tbuf: array<bv8>)
    requires IsCString(rand)
    ensures fresh(tbuf) && Holds(tbuf[..], Join([rand]))
  {
    tbuf := new bv8[TMP_BUF_SIZE](_ => 0);
    StrLenUnique(tbuf[..], 0);
    Append(tbuf, rand, []);
    assert [] + rand == rand;
  }

  method EncodeSdp(f: Fields) returns (r: Option<Bytes>)
    requires Printable(f) && IsCString(f.rand)
    ensures r == if Complete(f, true) && Fits(f, true) then Some(EncodedText(f, true)) else None
  {
    hide Holds, Join, Cut, Dec, Tail;
    if f.message == [] || (f.msgType == NAT_ACCESS_MSG && (f.natAccess.None? || f.natAccess.value == [])) {
      return None;
    }
    var tbuf := Start(f.rand);
    DecText(f.timestamp % TWO32);
    AppendPart(tbuf, Dec(f.timestamp % TWO32), [f.rand]);
    DecText(f.msgType);
    AppendPart(tbuf, Dec(f.msgType), [f.rand] + [Dec(f.timestamp % TWO32)]);
    ghost var head := [f.rand] + [Dec(f.timestamp % TWO32)] + [Dec(f.msgType)];
    var ok := AppendTail(tbuf, f, head);
    if !ok {
      return None;
    }
    assert head + Tail(f) == SdpParts(f);
    HoldsText(tbuf[..], Join(SdpParts(f)));
    r := Some(CStr(tbuf[..]));
  }

  // The C string in the buffer once it is complete.
  lemma HoldsText(tbuf: seq<bv8>, s: Bytes)
    requires Holds(tbuf, s)
    ensures CStr(tbuf) == Cut(s)
  {
  }

  // The parts before the message in legacy mode.
  function Head(f: Fields): (p: seq<Bytes>)
    requires Printable(f)
    ensures |p| == 5
  {
    [f.rand, B64(f.username), Dec(f.timestamp % TWO32), f.version, Dec(f.msgType)]
  }

  method AppendHead(f: Fields) returns (tbuf: array<bv8>, ok: bool)
    requires Printable(f) && IsCString(f.rand) && IsCString(f.version)
    ensures fresh(tbuf) && ok == (|f.username| < MAX_MSG_SIZE)
    ensures ok ==> Holds(tbuf[..], Join(Head(Normalised(f))))
  {
    hide Holds, Join, Dec, B64;
    tbuf := Start(f.rand);
    ok := AppendB64Part(tbuf, f.username, [f.rand]);
    if !ok {
      return;
    }
    ghost var p := [f.rand] + [B64(f.username)];
    DecText(f.timestamp % TWO32);
    AppendPart(tbuf, Dec(f.timestamp % TWO32), p);
    p := p + [Dec(f.timestamp % TWO32)];
    AppendPart(tbuf, f.version, p);
    p := p + [f.version];
    var t := TypeFor(f.msgType, f.timeout);
    DecText(t);
    AppendPart(tbuf, Dec(t), p);
    assert p + [Dec(t)] == Head(Normalised(f));
  }

  method EncodeLegacy(f: Fields) returns (r: Option<Bytes>)
    requires Printable(f) && IsCString(f.rand) && IsCString(f.version)
    ensures r == if Complete(f, false) && Fits(f, false) then Some(EncodedText(f, false)) else None
  {
    hide Holds, Join, Cut, Dec, Tail, Head, TypeFor;
    var valid := ValidateUsername(f.username);
    if !valid || f.version == [] || f.message == []
       || (f.msgType == NAT_ACCESS_MSG && (f.natAccess.None? || f.natAccess.value == []))
    {
      return None;
    }
    var tbuf, ok := AppendHead(f);
    if !ok {
      return None;
    }
    var g := Normalised(f);
    ok := AppendTail(tbuf, g, Head(g));
    if !ok {
      return None;
    }
    if g.timeout > 0 && g.msgType != COMMAND_MSG {
      DecText(g.timeout);
      AppendPart(tbuf, Dec(g.timeout), Head(g) + Tail(g));
    }
    LegacyPartsAre(g);
    HoldsText(tbuf[..], Join(LegacyParts(g)));
    r := Some(CStr(tbuf[..]));
  }

  lemma LegacyPartsAre(f: Fields)
    requires Printable(f)
    ensures LegacyParts(f) == Head(f) + Tail(f) + TimeoutPart(f)
    ensures f.timeout == 0 || f.msgType == COMMAND_MSG ==> LegacyParts(f) == Head(f) + Tail(f)
  {
  }
}
