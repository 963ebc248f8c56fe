/**
 The packet a sender makes of its fields and what a receiver makes of a packet, each a
 composition of the layers in the other modules, and the theorem that the receiver
 recovers the fields exactly under three conditions.
 */
module Pipeline {
  import opened Common
  import opened SpaFields
  import opened SpaMessage
  import opened SpaEncode
  import opened SpaDecode
  import opened SpaRoundTrip
  import opened SpaAccepted
  import SpaExact
  import opened SaltPrefix
  import opened CipherFuncs
  import BlockModes
  import BlockHash
  import Base64
  import Hashes
  import Hmac

  const MAX_KEY_LEN := 32
  const MAX_HMAC_KEY_LEN := 128
  const MIN_GNUPG_MSG_SIZE := 400
  const SDP_ID_LEN := 6
  const LAST_ENC_MODE := 9
  const ENCRYPTION_RIJNDAEL := 1

  // What sender and receiver share. Without an HMAC key there is no HMAC.
  datatype Secrets = Secrets(key: Bytes, mode: int, hmac: Option<Hashes.Algorithm>, hmacKey: Bytes)

  function SdpIdText(id: bv32): (s: Bytes)
    ensures |s| == SDP_ID_LEN
  {
    B64(BlockHash.WordLittleEndian(id))
  }

  // ----- the sender -----

  // What block encryption and encoding make of a plaintext.
  ghost function CipherText(h: Hashes.Functions, mode: int, key: Bytes, salt: Salt, pt: Bytes): Bytes
    requires |key| <= MAX_KEY_LEN
  {
    B64(Sealed(h, mode, key, salt, pt))
  }

  ghost function Encrypt(h: Hashes.Functions, mode: int, key: Bytes, salt: Salt, text: Bytes,
                         a: Hashes.Algorithm): Option<Bytes> {
    var pt := Plaintext(h, a, text);
    if !ValidMsgLen(|text|) || |key| > MAX_KEY_LEN || !ValidMsgLen(|pt|) then None else
    var c := CipherText(h, mode, key, salt, pt);
    if ValidMsgLen(|c|) then Some(c) else None
  }

  function HmacText(h: Hashes.Functions, a: Hashes.Algorithm, key: Bytes, msg: Bytes): Bytes {
    B64(Hmac.Rfc2104(h, a, key, msg))
  }

  function IdText(id: Option<bv32>): Bytes { match id case None => [] case Some(n) => SdpIdText(n) }

  // The prefix comes off, the text of the id goes in front and the HMAC at the end.
  function Wrap(h: Hashes.Functions, s: Secrets, id: Bytes, c: Bytes): Option<Bytes>
    requires |c| >= PREFIX_LEN
  {
    var body := id + c[PREFIX_LEN..];
    if !ValidMsgLen(|body| + 1) || !ValidMsgLen(|body|) then None else
    match s.hmac
    case None => Some(body)
    case Some(a) => if |s.hmacKey| > MAX_HMAC_KEY_LEN then None else Some(body + HmacText(h, a, s.hmacKey, body))
  }

  ghost function Packet(h: Hashes.Functions, s: Secrets, salt: Salt, id: Option<bv32>, f: Fields,
                        a: Hashes.Algorithm): Option<Bytes>
    requires Printable(f)
  {
    var sdp := id.Some?;
    if (sdp && id.value == 0) || !Complete(f, sdp) || !Fits(f, sdp) then None else
    match Encrypt(h, s.mode, s.key, salt, EncodedText(f, sdp), a)
    case None => None
    case Some(c) => Wrap(h, s, IdText(id), c)
  }

  // ----- the receiver -----

  // The message without its HMAC, if that is right.
  function CheckHmac(h: Hashes.Functions, s: Secrets, msg: Bytes): Option<Bytes> {
    match s.hmac
    case None => None
    case Some(a) =>
      var n := |msg| - Hashes.B64Len(a);
      if !ValidMsgLen(|msg|) || |s.hmacKey| > MAX_HMAC_KEY_LEN || n < MIN_MSG_SIZE then None
      else if msg[n..] == HmacText(h, a, s.hmacKey, msg[..n]) then Some(msg[..n])
      else None
  }

  // The text after the id, if it is long enough.
  function StripSdpId(msg: Bytes): Option<Bytes>
    requires |msg| >= SDP_ID_LEN
  {
    if ValidMsgLen(|msg| - SDP_ID_LEN) then Some(msg[SDP_ID_LEN..]) else None
  }

  // Sixteen digits and a separator.
  predicate LooksDecrypted(pt: Bytes) {
    |pt| > RAND_VAL_SIZE && AllDigits(pt[..RAND_VAL_SIZE]) && pt[RAND_VAL_SIZE] == COLON
  }

  // The text with its prefix has characters before any '=', so that something is decoded.
  lemma PrefixDecodes(msg: Bytes)
    requires Salted(msg).Some?
    ensures Base64.Stop(Salted(msg).value) >= PREFIX_LEN
  {
    hide IsBase64, Base64.Stop;
    var c64 := Salted(msg).value;
    assert c64[..PREFIX_LEN] == PREFIX;
    assert forall i | 0 <= i < PREFIX_LEN :: c64[i] == PREFIX[i] && PREFIX[i] != Base64.EQUALS && PREFIX[i] != 0;
  }

  // An envelope of one block comes of a message whose text, with the prefix, ends after 22
  // characters, and of no other; there is none of no block.
  lemma OneBlockExactly(msg: Bytes)
    requires Salted(msg).Some? && Base64.Decoded(Salted(msg).value).Some?
    ensures var c64 := Salted(msg).value;
            var c := Base64.Decoded(c64).value;
            |c| > 0 && (|c| % 16 == 0 && |c| < 32 <==> Base64.Stop(c64) == 22)
  {
    hide IsBase64, Base64.Stop;
    PrefixDecodes(msg);
    var c64 := Salted(msg).value;
    assert |Base64.Decoded(c64).value| == 3 * Base64.Stop(c64) / 4;
  }

  // An envelope of one block holds no plaintext and is refused.
  ghost function Decrypt(h: Hashes.Functions, aton: InetAton, s: Secrets, sdp: bool, msg: Bytes): Option<Decoded> {
    if !ValidMsgLen(|msg|) || |msg| >= MIN_GNUPG_MSG_SIZE || |s.key| > MAX_KEY_LEN then None else
    match Salted(msg)
    case None => None
    case Some(c64) =>
      match Base64.Decoded(c64)
      case None => None
      case Some(c) =>
        if |c| % 16 != 0 || |c| < 32 then None else
        var pt := Opened(h, s.mode, s.key, c);
        if |pt| < |c| - 32 || !ValidMsgLen(|pt|) || !LooksDecrypted(pt) then None
        else Decode(h, aton, sdp, pt)
  }

  ghost function Received(h: Hashes.Functions, aton: InetAton, s: Secrets, id: Option<bv32>,
                          packet: Bytes): Option<Decoded> {
    if !ValidMsgLen(|packet|) || !(0 <= s.mode < LAST_ENC_MODE) then None else
    match (if s.hmacKey != [] then CheckHmac(h, s, packet) else Some(packet))
    case None => None
    case Some(body) =>
      match (if id.Some? then StripSdpId(body) else Some(body))
      case None => None
      case Some(msg) => Decrypt(h, aton, s, id.Some?, msg)
  }

  // ----- every layer undone -----

  // The HMAC the sender appends is the one the receiver computes.
  lemma HmacUndone(h: Hashes.Functions, s: Secrets, a: Hashes.Algorithm, body: Bytes)
    requires s.hmac == Some(a) && |s.hmacKey| <= MAX_HMAC_KEY_LEN && ValidMsgLen(|body|)
    ensures var msg := body + HmacText(h, a, s.hmacKey, body);
            CheckHmac(h, s, msg) == if ValidMsgLen(|msg|) then Some(body) else None
  {
    hide Hmac.Rfc2104, B64;
    B64Plain(Hmac.Rfc2104(h, a, s.hmacKey, body));
    var msg := body + HmacText(h, a, s.hmacKey, body);
    assert msg[..|body|] == body && msg[|body|..] == HmacText(h, a, s.hmacKey, body);
  }

  // A packet that ends in the HMAC of what is before it.
  predicate Signed(h: Hashes.Functions, a: Hashes.Algorithm, key: Bytes, packet: Bytes, body: Bytes) {
    packet == body + Base64.Unpadded(Hmac.Rfc2104(h, a, key, body))
  }

  // The HMAC check passes exactly for packets of a valid length that are signed with the shared key.
  lemma CheckHmacExactly(h: Hashes.Functions, s: Secrets, msg: Bytes, body: Bytes)
    ensures CheckHmac(h, s, msg) == Some(body) <==>
              && 36 <= |msg| < 1500 && 36 <= |body| && |s.hmacKey| <= 128
              && s.hmac.Some? && Signed(h, s.hmac.value, s.hmacKey, msg, body)
  {
    hide Hmac.Rfc2104, Base64.Unpadded, Plain;
    if s.hmac.Some? {
      var a := s.hmac.value;
      DigestLengths(Hashes.B64Len(a), a);
      var n := |msg| - Hashes.B64Len(a);
      if 0 <= n {
        assert msg == msg[..n] + msg[n..];
      }
      if Signed(h, a, s.hmacKey, msg, body) {
        assert body == msg[..|body|] && msg[|body|..] == HmacText(h, a, s.hmacKey, body);
      }
    }
  }

  predicate Agreed(s: Secrets) {
    0 <= s.mode < LAST_ENC_MODE && |s.hmacKey| <= MAX_HMAC_KEY_LEN && (s.hmac.Some? <==> s.hmacKey != [])
  }

  // Unwrapping a wrapped message that is not too long for a packet leaves the text after the prefix.
  lemma UnwrapUndoesWrap(h: Hashes.Functions, aton: InetAton, s: Secrets, id: Option<bv32>, c: Bytes)
    requires Agreed(s) && |c| >= PREFIX_LEN + MIN_MSG_SIZE && Wrap(h, s, IdText(id), c).Some?
    requires |c| < PREFIX_LEN + MAX_MSG_SIZE
    ensures var p := Wrap(h, s, IdText(id), c).value;
            Received(h, aton, s, id, p)
            == if ValidMsgLen(|p|) then Decrypt(h, aton, s, id.Some?, c[PREFIX_LEN..]) else None
  {
    hide Hmac.Rfc2104, B64, Decrypt, SdpIdText, HmacText, CheckHmac;
    var body := IdText(id) + c[PREFIX_LEN..];
    if s.hmac.Some? {
      HmacUndone(h, s, s.hmac.value, body);
    }
    if id.Some? {
      assert body[SDP_ID_LEN..] == c[PREFIX_LEN..];
    } else {
      assert body == c[PREFIX_LEN..];
    }
  }

  // Decryption of a message the sender encrypted comes down to opening the envelope.
  lemma DecryptCipherText(h: Hashes.Functions, aton: InetAton, s: Secrets, salt: Salt, sdp: bool, pt: Bytes)
    requires |s.key| <= MAX_KEY_LEN && ValidMsgLen(|pt|)
    ensures var c := CipherText(h, s.mode, s.key, salt, pt);
            && |c| > PREFIX_LEN + MIN_MSG_SIZE
            && Decrypt(h, aton, s, sdp, c[PREFIX_LEN..])
               == if && |c| - PREFIX_LEN < MIN_GNUPG_MSG_SIZE
                     && BlockModes.Supported(CipherMode(s.mode)) && LooksDecrypted(pt)
                  then Decode(h, aton, sdp, pt) else None
  {
    hide Sealed, Opened, Salted, Decode, LooksDecrypted, Base64.Decoded, Base64.Unpadded, BlockModes.Supported;
    hide CipherMode;
    var e := Sealed(h, s.mode, s.key, salt, pt);
    var c := CipherText(h, s.mode, s.key, salt, pt);
    SealedHeader(h, s.mode, s.key, salt, pt);
    PrefixRestored(e);
    Base64.DecodeEncode(e, []);
    assert Base64.Unpadded(e) + [] == c;
    B64Plain(e);
    OpenedEnvelope(h, s, salt, pt);
  }

  lemma SealedHeader(h: Hashes.Functions, mode: int, key: Bytes, salt: Salt, pt: Bytes)
    requires |key| <= MAX_KEY_LEN
    ensures var e := Sealed(h, mode, key, salt, pt);
            |e| >= 32 && |e| % 16 == 0 && e[..8] == SALTED && |e| - 32 <= |pt| < |e|
  {
    hide Body;
    var body := Body(h, BlockModes.Encrypting, mode, key, salt, Padded(pt));
    assert Sealed(h, mode, key, salt, pt) == SALTED + (salt + body);
  }

  // In a mode the block functions do not handle, what is opened does not look decrypted.
  lemma OpenedEnvelope(h: Hashes.Functions, s: Secrets, salt: Salt, pt: Bytes)
    requires |s.key| <= MAX_KEY_LEN
    ensures var o := Opened(h, s.mode, s.key, Sealed(h, s.mode, s.key, salt, pt));
            if BlockModes.Supported(CipherMode(s.mode)) then o == pt else !LooksDecrypted(o)
  {
    hide Sealed, Opened, LooksDecrypted, BlockModes.Supported, CipherMode;
    OpenUndoesSeal(h, s.mode, s.key, salt, pt);
    if !BlockModes.Supported(CipherMode(s.mode)) {
      OpenUnsupported(h, s.mode, s.key, salt, pt);
      ZerosDoNotLook(|pt| + PadLength(|pt|));
    }
  }

  lemma ZerosDoNotLook(n: nat)
    ensures !LooksDecrypted(Zeros(n))
  {
    if n > RAND_VAL_SIZE {
      assert Zeros(n)[..RAND_VAL_SIZE][0] == 0;
    }
  }

  // A sender's plaintext looks decrypted.
  lemma PlaintextLooks(h: Hashes.Functions, aton: InetAton, a: Hashes.Algorithm, f: Fields, sdp: bool)
    requires Sendable(aton, f, sdp) && Printable(f)
    ensures LooksDecrypted(Plaintext(h, a, EncodedText(f, sdp)))
  {
    hide DigestText, SpaRoundTrip.Parts, Join, EncodedText, Recoverable, NatMessage, ValidUsername, AllPrint;
    hide NoColon, IsDigit;
    NotCut(f, sdp);
    FirstPart(f, sdp);
    JoinFirst(SpaRoundTrip.Parts(f, sdp));
    var pt := Plaintext(h, a, EncodedText(f, sdp));
    assert pt[..RAND_VAL_SIZE] == f.rand;
  }

  // ----- end to end -----

  // How long a ciphertext is: the limits of 400 characters for a message without its prefix and
  // of 1500 for an encoded message are limits of the plaintext.
  lemma CipherTextLength(h: Hashes.Functions, mode: int, key: Bytes, salt: Salt, pt: Bytes)
    requires |key| <= MAX_KEY_LEN
    ensures var c := CipherText(h, mode, key, salt, pt);
            && (|c| - PREFIX_LEN < MIN_GNUPG_MSG_SIZE <==> |pt| <= 287)
            && (|c| < MAX_MSG_SIZE <==> |pt| <= 1103)
            && |c| > PREFIX_LEN + 32
  {
    hide Sealed, B64;
    B64Plain(Sealed(h, mode, key, salt, pt));
    SealedLengthIs(|pt|);
  }

  lemma SealedLengthIs(n: nat)
    ensures SealedLength(n) == 16 * (n / 16) + 32
  {
  }

  lemma PlaintextSize(h: Hashes.Functions, a: Hashes.Algorithm, text: Bytes)
    ensures |Plaintext(h, a, text)| == |text| + 1 + Hashes.B64Len(a) && Hashes.B64Len(a) <= 86
  {
    hide DigestText, Plain;
    DigestTextFacts(h, a, text);
  }

  // A text is encrypted exactly when it has a valid length and, with its digest, leaves a valid one.
  lemma EncryptExactly(h: Hashes.Functions, mode: int, key: Bytes, salt: Salt, text: Bytes, a: Hashes.Algorithm)
    ensures var r := Encrypt(h, mode, key, salt, text, a);
            && (r.Some? <==> ValidMsgLen(|text|) && |key| <= MAX_KEY_LEN && |text| + Hashes.B64Len(a) <= 1102)
            && (r.Some? ==> r.value == CipherText(h, mode, key, salt, Plaintext(h, a, text)) && |r.value| >= PREFIX_LEN)
  {
    hide CipherText, Plaintext;
    PlaintextSize(h, a, text);
    if |key| <= MAX_KEY_LEN {
      CipherTextLength(h, mode, key, salt, Plaintext(h, a, text));
    }
  }

  predicate HmacKeyFits(s: Secrets) { s.hmac.Some? ==> |s.hmacKey| <= MAX_HMAC_KEY_LEN }

  lemma WrapExactly(h: Hashes.Functions, s: Secrets, id: Bytes, c: Bytes)
    requires PREFIX_LEN + MIN_MSG_SIZE <= |c| < MAX_MSG_SIZE && |id| <= SDP_ID_LEN
    ensures Wrap(h, s, id, c).Some? <==> HmacKeyFits(s)
  {
    hide HmacText;
  }

  // When a packet is made of the fields: there is a message, NAT access has its part, in legacy mode
  // there are a user and a version, nothing is too long or too short, and the id is not zero.
  lemma PacketExactly(h: Hashes.Functions, s: Secrets, salt: Salt, id: Option<bv32>, f: Fields, a: Hashes.Algorithm)
    requires Printable(f)
    ensures var text := EncodedText(f, id.Some?);
            Packet(h, s, salt, id, f, a).Some? <==>
              && id != Some(0) && 0 < |f.message| < 1500
              && (f.natAccess.Some? ==> |f.natAccess.value| < 1500)
              && (f.serverAuth.Some? ==> |f.serverAuth.value| < 1500)
              && (f.msgType == 4 ==> f.natAccess.Some? && f.natAccess.value != [])
              && (id.None? ==> ValidUsername(f.username) && |f.username| < 1500 && f.version != [])
              && 36 <= |text| < 1500 && |text| + Hashes.B64Len(a) <= 1102
              && |s.key| <= 32 && (s.hmac.Some? ==> |s.hmacKey| <= 128)
  {
    hide EncodedText, Encrypt, Wrap, CipherText, SdpIdText, Plaintext, ValidUsername;
    var text := EncodedText(f, id.Some?);
    EncryptExactly(h, s.mode, s.key, salt, text, a);
    if ValidMsgLen(|text|) && |s.key| <= MAX_KEY_LEN && |text| + Hashes.B64Len(a) <= 1102 {
      PlaintextSize(h, a, text);
      CipherTextLength(h, s.mode, s.key, salt, Plaintext(h, a, text));
      EncryptedSize(h, s.mode, s.key, salt, Plaintext(h, a, text));
      WrapExactly(h, s, IdText(id), CipherText(h, s.mode, s.key, salt, Plaintext(h, a, text)));
    }
  }

  // A packet byte by byte: the id, least significant byte first, in base64; the envelope of the
  // text, a separator and its digest, in base64 without the first ten characters; and the HMAC of
  // all that, in base64.
  lemma PacketLayout(h: Hashes.Functions, s: Secrets, salt: Salt, id: Bytes, text: Bytes, a: Hashes.Algorithm,
                     c: Bytes, packet: Bytes)
    requires Encrypt(h, s.mode, s.key, salt, text, a) == Some(c)
    requires |c| >= PREFIX_LEN && Wrap(h, s, id, c) == Some(packet)
    ensures |s.key| <= 32
    ensures var pt := text + [COLON] + Base64.Unpadded(Hashes.Digest(h, a, text));
            var body := id + Base64.Unpadded(Sealed(h, s.mode, s.key, salt, pt))[10..];
            match s.hmac
            case None => packet == body
            case Some(b) => packet == body + Base64.Unpadded(Hmac.Rfc2104(h, b, s.hmacKey, body))
  {
    hide Hashes.Digest, Base64.Unpadded, Sealed, Hmac.Rfc2104;
  }

  lemma IdBytes(id: bv32) returns (b: Bytes)
    ensures |b| == 4 && BlockHash.LittleWord(b) == id && SdpIdText(id) == Base64.Unpadded(b)
  {
    hide Base64.Unpadded;
    b := BlockHash.WordLittleEndian(id);
    BlockHash.WordBytes(id);
  }

  lemma EncryptedSize(h: Hashes.Functions, mode: int, key: Bytes, salt: Salt, pt: Bytes)
    requires |key| <= MAX_KEY_LEN && |pt| >= MIN_MSG_SIZE
    ensures |CipherText(h, mode, key, salt, pt)| > PREFIX_LEN + MIN_MSG_SIZE
  {
    hide Sealed, B64;
    B64Plain(Sealed(h, mode, key, salt, pt));
    SealedLengthIs(|pt|);
  }

  // For every sender's fields, shared secrets, salt and digest type for which a packet is
  // made, the receiver passes the HMAC check, decrypts, and recovers the fields on the wire
  // and the digest exactly when the text and the digest together have at most 286 characters,
  // the mode is one the block functions handle, and the fields are recoverable.
  lemma EndToEnd(h: Hashes.Functions, aton: InetAton, s: Secrets, salt: Salt, id: Option<bv32>, f: Fields,
                 a: Hashes.Algorithm,
                 c: Bytes, packet: Bytes)
    requires Sendable(aton, f, id.Some?) && Printable(f) && Agreed(s)
    requires Encrypt(h, s.mode, s.key, salt, EncodedText(f, id.Some?), a) == Some(c)
    requires |c| >= PREFIX_LEN && Wrap(h, s, IdText(id), c) == Some(packet)
    ensures var text := EncodedText(f, id.Some?);
            Received(h, aton, s, id, packet) == Some(Decoded(Carried(f, id.Some?), a, DigestText(h, a, text)))
            <==>
            && |text| + Hashes.B64Len(a) <= 286
            && BlockModes.Supported(CipherMode(s.mode))
            && Recoverable(aton, f, id.Some?)
  {
    hide Received, Wrap, Decrypt, Decode, Recoverable, Carried, CipherText, EncodedText, Plaintext, DigestText;
    hide BlockModes.Supported, CipherMode, Complete, Fits, Sendable, LooksDecrypted;
    var sdp := id.Some?;
    var text := EncodedText(f, sdp);
    var pt := Plaintext(h, a, text);
    PlaintextSize(h, a, text);
    CipherTextLength(h, s.mode, s.key, salt, pt);
    DecryptCipherText(h, aton, s, salt, sdp, pt);
    UnwrapUndoesWrap(h, aton, s, id, c);
    PlaintextLooks(h, aton, a, f, sdp);
    RoundTrip(h, aton, sdp, f, a);
    ShortPacket(h, s, IdText(id), c);
  }

  lemma ShortPacket(h: Hashes.Functions, s: Secrets, id: Bytes, c: Bytes)
    requires |c| >= PREFIX_LEN && |id| <= SDP_ID_LEN && Wrap(h, s, id, c).Some?
    ensures |c| - PREFIX_LEN < MIN_GNUPG_MSG_SIZE ==> ValidMsgLen(|Wrap(h, s, id, c).value|)
  {
    hide Hmac.Rfc2104, B64;
    var body := id + c[PREFIX_LEN..];
    if s.hmac.Some? {
      B64Plain(Hmac.Rfc2104(h, s.hmac.value, s.hmacKey, body));
    }
  }

  // ----- whatever is received -----

  // The message in a packet, without HMAC and id, as both ends lay it out.
  predicate Carries(h: Hashes.Functions, s: Secrets, sdp: bool, packet: Bytes, body: Bytes, msg: Bytes) {
    && 36 <= |packet| < 1500
    && (if s.hmacKey == [] then packet == body
        else s.hmac.Some? && |s.hmacKey| <= 128 && Signed(h, s.hmac.value, s.hmacKey, packet, body))
    && (if sdp then |body| >= 6 && msg == body[6..] else msg == body)
  }

  // The plaintext of a message: the envelope in its base64, opened, starts with a random value of
  // sixteen digits and a separator.
  ghost predicate OpensTo(h: Hashes.Functions, s: Secrets, msg: Bytes, pt: Bytes) {
    && 36 <= |msg| < 400 && |s.key| <= 32
    && |pt| > 16 && AllDigits(pt[..16]) && pt[16] == COLON
    && exists c :: EnvelopeOf(msg, c) && pt == Opened(h, s.mode, s.key, c) && |pt| >= |c| - 32
  }

  // The envelope in a message: base64 throughout, with the ten characters of "Salted__" in front
  // if they are missing.
  predicate EnvelopeOf(msg: Bytes, c: Bytes) {
    && |c| % 16 == 0 && |c| >= 32
    && (forall i | 0 <= i < |msg| :: Base64.Base64Char(msg[i]))
    && Base64.Decoded(if PREFIX <= msg then msg else PREFIX + msg) == Some(c)
  }

  // A packet with a message that opens to a plaintext from which these fields are decoded.
  ghost predicate Genuine(h: Hashes.Functions, aton: InetAton, s: Secrets, sdp: bool, packet: Bytes, d: Decoded) {
    0 <= s.mode < 9 && exists body, msg, pt ::
      Carries(h, s, sdp, packet, body, msg) && OpensTo(h, s, msg, pt) && DecodedFrom(h, aton, sdp, pt, d)
  }

  // Whatever the packet, what a receiver makes of it was signed with the shared key if there is
  // one, and decoded from a plaintext with a random value and a digest that is right.
  lemma ReceivedSound(h: Hashes.Functions, aton: InetAton, s: Secrets, id: Option<bv32>, packet: Bytes)
      returns (body: Bytes, msg: Bytes, pt: Bytes)
    requires Received(h, aton, s, id, packet).Some?
    ensures Carries(h, s, id.Some?, packet, body, msg) && OpensTo(h, s, msg, pt)
    ensures DecodedFrom(h, aton, id.Some?, pt, Received(h, aton, s, id, packet).value)
    ensures Genuine(h, aton, s, id.Some?, packet, Received(h, aton, s, id, packet).value)
    ensures Received(h, aton, s, id, packet).value.fields.rand == pt[..16]
  {
    hide Decode, CheckHmac, Opened, Base64.Decoded, Hmac.Rfc2104, Base64.Unpadded, DecodedFrom, Base64.Base64Char;
    body := packet;
    if s.hmacKey != [] {
      body := CheckHmac(h, s, packet).value;
      CheckHmacExactly(h, s, packet, body);
    }
    msg := if id.Some? then body[SDP_ID_LEN..] else body;
    var c64 := Salted(msg).value;
    var c := Base64.Decoded(c64).value;
    assert |msg| >= PREFIX_LEN ==> (PREFIX <= msg <==> msg[..PREFIX_LEN] == PREFIX);
    assert EnvelopeOf(msg, c);
    pt := Opened(h, s.mode, s.key, c);
    DecodeSound(h, aton, id.Some?, pt);
    RandIsFirst(h, aton, id.Some?, pt, Decode(h, aton, id.Some?, pt).value);
  }

  // And such a packet is decoded, to what its plaintext says.
  lemma ReceivedComplete(h: Hashes.Functions, aton: InetAton, s: Secrets, id: Option<bv32>, packet: Bytes,
                         body: Bytes, msg: Bytes, pt: Bytes)
    requires 0 <= s.mode < 9 && Carries(h, s, id.Some?, packet, body, msg) && OpensTo(h, s, msg, pt)
    requires 36 <= |pt| < 1500
    ensures Received(h, aton, s, id, packet) == Decode(h, aton, id.Some?, pt)
  {
    hide Decode, CheckHmac, Opened, Base64.Decoded, Hmac.Rfc2104, Base64.Unpadded, Base64.Base64Char;
    if s.hmacKey != [] {
      CheckHmacExactly(h, s, packet, body);
    }
    assert |msg| >= PREFIX_LEN ==> (PREFIX <= msg <==> msg[..PREFIX_LEN] == PREFIX);
  }

  // A receiver makes something of a packet exactly when the packet is genuine.
  lemma ReceivedExactly(h: Hashes.Functions, aton: InetAton, s: Secrets, id: Option<bv32>, packet: Bytes, d: Decoded)
    ensures Received(h, aton, s, id, packet) == Some(d) <==> Genuine(h, aton, s, id.Some?, packet, d)
  {
    hide Decode, Received, Carries, OpensTo, DecodedFrom;
    if Received(h, aton, s, id, packet).Some? {
      var _, _, _ := ReceivedSound(h, aton, s, id, packet);
    }
    if Genuine(h, aton, s, id.Some?, packet, d) {
      var body, msg, pt :|
        Carries(h, s, id.Some?, packet, body, msg) && OpensTo(h, s, msg, pt) && DecodedFrom(h, aton, id.Some?, pt, d);
      DecodedSize(h, aton, id.Some?, pt, d);
      ReceivedComplete(h, aton, s, id, packet, body, msg, pt);
      SpaExact.DecodeComplete(h, aton, id.Some?, pt, d);
    }
  }

  lemma DecodedSize(h: Hashes.Functions, aton: InetAton, sdp: bool, pt: Bytes, d: Decoded)
    requires DecodedFrom(h, aton, sdp, pt, d)
    ensures 36 <= |pt| < 1500
  {
    hide Hashes.Digest, Base64.Unpadded, StrLen, Digested, SdpAccepted, LegacyAccepted;
  }

  // ----- a message that is too long -----

  // "1.1.1.1,tcp/1,tcp/1,..." with thirty ports: 187 characters
  function ThirtyPorts(): Bytes { IP + Joined(seq(30, _ => SPEC)) }

  lemma {:induction false} JoinedSpecs(n: nat)
    ensures |Joined(seq(n, _ => SPEC))| == 6 * n && IsCString(Joined(seq(n, _ => SPEC)))
  {
    if n > 0 {
      assert seq(n, _ => SPEC)[1..] == seq(n - 1, _ => SPEC);
      JoinedSpecs(n - 1);
    }
  }

  lemma ThirtyPortsFacts(aton: InetAton)
    requires aton(IP)
    ensures |ThirtyPorts()| == 187 && IsCString(ThirtyPorts()) && AccessMessage(aton, ThirtyPorts())
  {
    hide Joined, AccessMessage;
    JoinedSpecs(30);
    ExampleIp(aton);
    ExampleSpec();
    WrittenOut(aton, IP, seq(30, _ => SPEC));
  }

  function LongExample(): Fields { Example(ACCESS_MSG, ThirtyPorts(), None, 0) }

  lemma LongExampleSendable(aton: InetAton, sdp: bool)
    requires aton(IP)
    ensures var f := LongExample();
            && Sendable(aton, f, sdp) && Recoverable(aton, f, sdp) && Sized(f, sdp) && Printable(f)
            && 0 < |f.message| < 1500 && f.natAccess.None? && f.serverAuth.None? && f.msgType == ACCESS_MSG
            && ValidUsername(f.username) && |f.username| < 1500 && f.version != []
  {
    hide AccessMessage, ThirtyPorts;
    ThirtyPortsFacts(aton);
  }

  // The length of a text with a message and nothing optional.
  lemma PlainTextLength(f: Fields, sdp: bool)
    requires Sized(f, sdp) && f.msgType == ACCESS_MSG && f.timeout == f.timestamp == 0
    requires f.natAccess.None? && f.serverAuth.None?
    ensures sdp ==> |EncodedText(f, sdp)| == 21 + |B64(f.message)|
    ensures !sdp ==> |EncodedText(f, sdp)| == 23 + |B64(f.username)| + |f.version| + |B64(f.message)|
  {
    hide EncodedText, Join, B64, PartsLength, Dec, SpaRoundTrip.Parts, OptText;
    var ps := SpaRoundTrip.Parts(f, sdp);
    NotCut(f, sdp);
    JoinLength(ps);
    var m, zero, three := [B64(f.message)], Dec(0), Dec(ACCESS_MSG);
    PlainParts(f, sdp);
    DecOne(0);
    DecOne(ACCESS_MSG);
    LengthOne(B64(f.message));
    if sdp {
      LengthThree(f.rand, zero, three);
      LengthAppend([f.rand, zero, three], m);
    } else {
      var head := [f.rand, B64(f.username), zero] + [f.version, three];
      LengthThree(f.rand, B64(f.username), zero);
      LengthTwo(f.version, three);
      LengthAppend([f.rand, B64(f.username), zero], [f.version, three]);
      LengthAppend(head, m);
    }
  }

  lemma PlainParts(f: Fields, sdp: bool)
    requires f.msgType == ACCESS_MSG && f.natAccess.None? && f.serverAuth.None? && f.timeout == f.timestamp == 0
    ensures var m, zero, three := [B64(f.message)], Dec(0), Dec(ACCESS_MSG);
            SpaRoundTrip.Parts(f, sdp)
            == (if sdp then [f.rand, zero, three] else [f.rand, B64(f.username), zero] + [f.version, three]) + m
  {
    hide B64, Dec;
  }

  lemma DecOne(n: nat)
    requires n < 10
    ensures |Dec(n)| == 1
  {
  }

  lemma PacketIs(h: Hashes.Functions, s: Secrets, salt: Salt, id: Option<bv32>, f: Fields, a: Hashes.Algorithm)
    requires Printable(f) && Packet(h, s, salt, id, f, a).Some?
    ensures |s.key| <= MAX_KEY_LEN
    ensures var c := CipherText(h, s.mode, s.key, salt, Plaintext(h, a, EncodedText(f, id.Some?)));
            |c| >= PREFIX_LEN && Packet(h, s, salt, id, f, a) == Wrap(h, s, IdText(id), c)
  {
    hide EncodedText, Encrypt, Wrap, CipherText, Complete, Fits, Plaintext;
    EncryptExactly(h, s.mode, s.key, salt, EncodedText(f, id.Some?), a);
  }

  lemma LengthOne(a: Bytes)
    ensures PartsLength([a]) == |a| + 1
  {
  }

  lemma LongExampleLength(sdp: bool)
    requires Sized(LongExample(), sdp) && |ThirtyPorts()| == 187
    ensures |EncodedText(LongExample(), sdp)| == if sdp then 271 else 276
  {
    hide EncodedText, B64, ThirtyPorts;
    PlainTextLength(LongExample(), sdp);
    B64Plain(ThirtyPorts());
    B64Plain(LongExample().username);
  }

  lemma WrapLonger(h: Hashes.Functions, s: Secrets, id: Bytes, c: Bytes)
    requires |c| >= PREFIX_LEN && Wrap(h, s, id, c).Some?
    ensures |Wrap(h, s, id, c).value| >= |c| - PREFIX_LEN
  {
    hide HmacText;
  }

  // An access message for thirty ports is recoverable and a packet is made of it, in either mode
  // and with every digest, but it has 400 characters or more and the receiver refuses it.
  lemma TooLong(h: Hashes.Functions, aton: InetAton, s: Secrets, salt: Salt, id: Option<bv32>, a: Hashes.Algorithm)
    requires aton(IP) && Agreed(s) && |s.key| <= MAX_KEY_LEN && id != Some(0)
    ensures var f := LongExample();
            && Sendable(aton, f, id.Some?) && Recoverable(aton, f, id.Some?) && Printable(f)
            && var p := Packet(h, s, salt, id, f, a);
               p.Some? && |p.value| >= MIN_GNUPG_MSG_SIZE && Received(h, aton, s, id, p.value).None?
  {
    hide EncodedText, Encrypt, Wrap, CipherText, Plaintext, Received, LongExample, Sendable, Recoverable;
    hide Decrypt, Decode;
    hide SdpIdText, LooksDecrypted, BlockModes.Supported, CipherMode, Sized, ThirtyPorts, ValidUsername, Packet;
    var f := LongExample();
    LongExampleSendable(aton, id.Some?);
    ThirtyPortsFacts(aton);
    LongExampleLength(id.Some?);
    var text := EncodedText(f, id.Some?);
    var pt := Plaintext(h, a, text);
    var c := CipherText(h, s.mode, s.key, salt, pt);
    PlaintextSize(h, a, text);
    PacketExactly(h, s, salt, id, f, a);
    PacketIs(h, s, salt, id, f, a);
    CipherTextLength(h, s.mode, s.key, salt, pt);
    DecryptCipherText(h, aton, s, salt, id.Some?, pt);
    UnwrapUndoesWrap(h, aton, s, id, c);
    WrapLonger(h, s, IdText(id), c);
  }
}
