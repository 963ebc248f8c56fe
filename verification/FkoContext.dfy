/**
 The SPA context of lib/fko_funcs.c and its setters. Modified flags say when the encoded
 message has to be made again; every setter but two keeps them truthful, so that what is
 encrypted and sent is always the encoding of the current fields.
 */
module FkoContext {
  import opened Common
  import opened SpaFields
  import opened SpaMessage
  import opened SpaEncode
  import opened SpaDecode
  import opened SpaRoundTrip
  import opened SaltPrefix
  import opened Pipeline
  import CipherFuncs
  import BlockModes
  import Rijndael
  import BlockHash
  import Base64
  import Hashes
  import Hmac

  // ----- state flags -----

  const DATA_MODIFIED: bv32 := 0x2
  const MSG_TYPE_MODIFIED: bv32 := 0x40
  const DIGEST_TYPE_MODIFIED: bv32 := 0x1000
  const ENCRYPT_TYPE_MODIFIED: bv32 := 0x2000
  const ENCRYPT_MODE_MODIFIED: bv32 := 0x1_0000
  const HMAC_MODE_MODIFIED: bv32 := 0x2_0000
  const SPA_DATA_MODIFIED: bv32 := 0x3042

  function SetFlag(state: bv32, flag: bv32): bv32 { state | flag }
  function ClearModified(state: bv32): bv32 { state & 0xcfbd }
  predicate Modified(state: bv32) { state & SPA_DATA_MODIFIED != 0 }

  lemma SetInside(state: bv32, flag: bv32)
    requires flag & SPA_DATA_MODIFIED != 0
    ensures Modified(SetFlag(state, flag))
  {
  }

  lemma SetOutside(state: bv32, flag: bv32)
    requires flag & SPA_DATA_MODIFIED == 0
    ensures Modified(SetFlag(state, flag)) == Modified(state)
  {
  }

  // Clearing takes away the four modified flags, and whatever is above the low sixteen bits.
  lemma Cleared(state: bv32)
    ensures !Modified(ClearModified(state))
    ensures ClearModified(state) | (state & (0x2 | 0x40 | 0x1000 | 0x2000)) == state & 0xffff
  {
  }

  // The type a NAT access message forces.
  function NatForced(t: int, timeout: int): int {
    if timeout > 0 then
      if t == CLIENT_TIMEOUT_LOCAL_NAT_ACCESS_MSG then t else CLIENT_TIMEOUT_NAT_ACCESS_MSG
    else
      if t == LOCAL_NAT_ACCESS_MSG || t == CLIENT_TIMEOUT_LOCAL_NAT_ACCESS_MSG then t else NAT_ACCESS_MSG
  }

  // What the environment says about the user: SPOOF_USER, LOGNAME, the login name and USER.
  datatype UserEnvironment = UserEnvironment(
    spoofUser: Option<Bytes>,
    logname: Option<Bytes>,
    login: Option<Bytes>,
    user: Option<Bytes>)

  // "NO_USER"
  const NO_USER: Bytes := [0x4e, 0x4f, 0x5f, 0x55, 0x53, 0x45, 0x52]

  // The name that is meant: the one given, if any, or the first the environment knows.
  function NameFrom(v: Bytes, env: UserEnvironment): Bytes {
    if v != [] then v
    else if env.spoofUser.Some? then env.spoofUser.value
    else if env.logname.Some? then env.logname.value
    else if env.login.Some? then env.login.value
    else if env.user.Some? then env.user.value
    else NO_USER
  }

  // A name of 64 characters or more is cut to 63.
  function CutName(v: Bytes): Bytes { if |v| >= MAX_USERNAME_SIZE then v[..MAX_USERNAME_SIZE - 1] else v }

  datatype Setter =
    | SetRandValue(rand: Bytes)
    | SetUsername(username: Bytes, env: UserEnvironment)
    | SetTimestamp(timestamp: int)
    | SetMessageType(msgType: int)
    | SetMessage(message: Bytes)
    | SetNatAccess(natAccess: Bytes)
    | SetServerAuth(serverAuth: Bytes)
    | SetClientTimeout(timeout: int)
    | SetDigestType(digestType: Hashes.Algorithm)
    | SetEncryptionType(encryptionType: int)
    | SetEncryptionMode(encryptionMode: int)
    | SetHmacType(hmacType: Option<Hashes.Algorithm>)

  // A text argument is a C string.
  predicate Passable(op: Setter) {
    match op
    case SetRandValue(s) => IsCString(s)
    case SetUsername(s, _) => IsCString(s)
    case SetMessage(s) => IsCString(s)
    case SetNatAccess(s) => IsCString(s)
    case SetServerAuth(s) => IsCString(s)
    case SetClientTimeout(n) => n < TWO31
    case _ => true
  }

  // What a setter makes of the fields; an argument that is not accepted changes nothing.
  function Applied(aton: InetAton, f: Fields, op: Setter): Fields {
    match op
    case SetRandValue(s) => if |s| == RAND_VAL_SIZE then f.(rand := s) else f
    case SetUsername(s, env) =>
      var u := CutName(NameFrom(s, env));
      if ValidUsername(u) then f.(username := u) else f
    case SetTimestamp(n) => if n >= 0 then f.(timestamp := n) else f
    case SetMessageType(t) => if 0 <= t < LAST_MSG_TYPE then f.(msgType := t) else f
    case SetMessage(s) => if 0 < |s| < MAX_MESSAGE_SIZE && ValidMessage(aton, f.msgType, s) then f.(message := s) else f
    case SetNatAccess(s) =>
      if 0 < |s| < 128 && NatMessage(aton, s)
      then f.(natAccess := Some(s), msgType := NatForced(f.msgType, f.timeout)) else f
    case SetServerAuth(s) => if 0 < |s| < 64 then f.(serverAuth := Some(s)) else f
    case SetClientTimeout(n) => if n >= 0 then Normalised(f.(timeout := n)) else f
    case _ => f
  }

  datatype Step =
    | SetStep(setter: Setter)
    | EncodeStep
    | EncryptStep(key: Bytes, salt: CipherFuncs.Salt)
    | FinalStep(key: Bytes, hmacKey: Bytes, salt: CipherFuncs.Salt)

  class Context {
    const h: Hashes.Functions
    const aton: InetAton
    var fields: Fields
    var sdpMode: bool
    var sdpId: bv32
    var digestType: Hashes.Algorithm
    var encryptionType: int
    var encryptionMode: int
    var hmacType: Option<Hashes.Algorithm>
    var encodedMsg: Option<Bytes>
    var digest: Option<Bytes>
    var encodedSdpId: Bytes
    var encryptedMsg: Bytes
    var msgHmac: Bytes
    var state: bv32

    // The fields are what the setters accept; only the random value may have other characters
    // than digits, and the message may have been checked against another type.
    predicate Valid()
      reads this
    {
      && |fields.rand| == RAND_VAL_SIZE && IsCString(fields.rand)
      && ValidUsername(fields.username) && |fields.username| < MAX_USERNAME_SIZE
      && fields.timestamp >= 0
      && fields.version == PROTOCOL_VERSION
      && Printable(fields) && fields.timeout < TWO31
      && |fields.message| < MAX_MESSAGE_SIZE && IsCString(fields.message)
      && OptText(fields.natAccess, 128) && (fields.natAccess.Some? ==> NatMessage(aton, fields.natAccess.value))
      && OptText(fields.serverAuth, 64)
      && 0 <= encryptionMode < LAST_ENC_MODE
    }

    // Without a modified flag, the encoded message, digest and id are those of the current fields.
    predicate Coherent()
      requires Valid()
      reads this
    {
      !Modified(state) ==>
        && encodedMsg == Some(EncodedText(fields, sdpMode)) && ValidMsgLen(|encodedMsg.value|)
        && (!sdpMode ==> Normalised(fields) == fields)
        && digest == Some(DigestText(h, digestType, encodedMsg.value))
        && (sdpMode ==> encodedSdpId == SdpIdText(sdpId))
    }

    // Without a modified flag there is an encoded message with its digest, and an id if one is sent.
    predicate Encoded()
      reads this
    {
      !Modified(state) ==>
        && encodedMsg.Some? && ValidMsgLen(|encodedMsg.value|)
        && digest == Some(DigestText(h, digestType, encodedMsg.value))
        && (sdpMode ==> |encodedSdpId| == SDP_ID_LEN)
    }

    // fko_new with a random value, username and time from outside.
    constructor (h: Hashes.Functions, aton: InetAton, rand: Bytes, username: Bytes, now: nat)
      requires |rand| == RAND_VAL_SIZE && IsCString(rand)
      requires ValidUsername(username) && |username| < MAX_USERNAME_SIZE
      ensures Valid() && Coherent() && this.h == h && this.aton == aton
      ensures Modified(state) && fields == Fields(rand, username, now, PROTOCOL_VERSION, ACCESS_MSG, [], None, None, 0)
      ensures encryptionType == ENCRYPTION_RIJNDAEL && encryptionMode == CipherFuncs.ENC_MODE_CBC
      ensures sdpMode && sdpId == 0 && hmacType == None && digestType == Hashes.SHA256
    {
      hide UsernameChar;
      this.h, this.aton := h, aton;
      fields := Fields(rand, username, now, PROTOCOL_VERSION, ACCESS_MSG, [], None, None, 0);
      sdpMode, sdpId, digestType := true, 0, Hashes.SHA256;
      encryptionType, encryptionMode, hmacType := ENCRYPTION_RIJNDAEL, CipherFuncs.ENC_MODE_CBC, None;
      encodedMsg, digest, encodedSdpId, encryptedMsg, msgHmac := None, None, [], [], [];
      state := DATA_MODIFIED | DIGEST_TYPE_MODIFIED | MSG_TYPE_MODIFIED | ENCRYPT_TYPE_MODIFIED | ENCRYPT_MODE_MODIFIED;
    }

    method RandValue(v: Bytes) returns (ok: bool)
      requires Valid() && IsCString(v)
      modifies this`fields, this`state
      ensures Valid() && ok == (|v| == RAND_VAL_SIZE)
      ensures ok ==> fields == old(fields).(rand := v) && Modified(state)
      ensures !ok ==> fields == old(fields) && state == old(state)
    {
      ok := |v| == RAND_VAL_SIZE;
      if ok {
        fields := fields.(rand := v);
        state := SetFlag(state, DATA_MODIFIED);
        SetInside(old(state), DATA_MODIFIED);
      }
    }

    // Without a name the environment is asked.
    method Username(v: Bytes, env: UserEnvironment) returns (ok: bool)
      requires Valid() && IsCString(v)
      modifies this`fields, this`state
      ensures Valid()
      ensures var u := CutName(NameFrom(v, env));
              ok == ValidUsername(u) && (ok ==> fields == old(fields).(username := u) && Modified(state))
      ensures !ok ==> fields == old(fields) && state == old(state)
    {
      hide UsernameChar;
      var username := if |v| > 0 then Some(v) else env.spoofUser;
      if username.None? {
        username := env.logname;
        if username.None? {
          username := env.login;
          if username.None? {
            username := if env.user.Some? then env.user else Some(NO_USER);
          }
        }
      }
      var u := username.value;
      if |u| >= MAX_USERNAME_SIZE {
        u := u[..63];
      }
      ok := ValidateUsername(u);
      if ok {
        fields := fields.(username := u);
        state := SetFlag(state, DATA_MODIFIED);
        SetInside(old(state), DATA_MODIFIED);
      }
    }

    method Timestamp(ts: int) returns (ok: bool)
      requires Valid()
      modifies this`fields, this`state
      ensures Valid() && ok == (ts >= 0)
      ensures ok ==> fields == old(fields).(timestamp := ts) && Modified(state)
      ensures !ok ==> fields == old(fields) && state == old(state)
    {
      ok := ts >= 0;
      if ok {
        fields := fields.(timestamp := ts);
        state := SetFlag(state, DATA_MODIFIED);
        SetInside(old(state), DATA_MODIFIED);
      }
    }

    method MessageType(t: int) returns (ok: bool)
      requires Valid()
      modifies this`fields, this`state
      ensures Valid() && ok == (0 <= t < LAST_MSG_TYPE)
      ensures ok ==> fields == old(fields).(msgType := t) && Modified(state)
      ensures !ok ==> fields == old(fields) && state == old(state)
    {
      ok := 0 <= t < LAST_MSG_TYPE;
      if ok {
        fields := fields.(msgType := t);
        state := SetFlag(state, MSG_TYPE_MODIFIED);
        SetInside(old(state), MSG_TYPE_MODIFIED);
      }
    }

    method Message(m: Bytes) returns (ok: bool)
      requires Valid() && IsCString(m)
      modifies this`fields, this`state
      ensures Valid() && ok == (0 < |m| < MAX_MESSAGE_SIZE && ValidMessage(aton, old(fields).msgType, m))
      ensures ok ==> fields == old(fields).(message := m) && Modified(state)
      ensures !ok ==> fields == old(fields) && state == old(state)
    {
      hide ValidMessage;
      if |m| == 0 || |m| >= MAX_MESSAGE_SIZE {
        return false;
      }
      ok := CheckMessage(aton, fields.msgType, m);
      if ok {
        fields := fields.(message := m);
        state := SetFlag(state, DATA_MODIFIED);
        SetInside(old(state), DATA_MODIFIED);
      }
    }

    method NatAccess(m: Bytes) returns (ok: bool)
      requires Valid() && IsCString(m)
      modifies this`fields, this`state
      ensures Valid() && ok == (0 < |m| < 128 && NatMessage(aton, m))
      ensures var t := NatForced(old(fields).msgType, old(fields).timeout);
              ok ==> fields == old(fields).(natAccess := Some(m), msgType := t) && NatType(t) && Modified(state)
      ensures !ok ==> fields == old(fields) && state == old(state)
    {
      hide NatMessage;
      if |m| == 0 || |m| >= 128 {
        return false;
      }
      ok := ValidateNatAccessMsg(aton, m);
      if ok {
        fields := fields.(natAccess := Some(m));
        state := SetFlag(state, DATA_MODIFIED);
        SetInside(old(state), DATA_MODIFIED);
        if fields.timeout > 0 {
          if fields.msgType != CLIENT_TIMEOUT_LOCAL_NAT_ACCESS_MSG {
            fields := fields.(msgType := CLIENT_TIMEOUT_NAT_ACCESS_MSG);
          }
        } else if fields.msgType != LOCAL_NAT_ACCESS_MSG && fields.msgType != CLIENT_TIMEOUT_LOCAL_NAT_ACCESS_MSG {
          fields := fields.(msgType := NAT_ACCESS_MSG);
        }
      }
    }

    method ServerAuth(m: Bytes) returns (ok: bool)
      requires Valid() && IsCString(m)
      modifies this`fields, this`state
      ensures Valid() && ok == (0 < |m| < 64)
      ensures ok ==> fields == old(fields).(serverAuth := Some(m)) && Modified(state)
      ensures !ok ==> fields == old(fields) && state == old(state)
    {
      ok := 0 < |m| < 64;
      if ok {
        fields := fields.(serverAuth := Some(m));
        state := SetFlag(state, DATA_MODIFIED);
        SetInside(old(state), DATA_MODIFIED);
      }
    }

    // The message type follows the timeout.
    method ClientTimeout(n: int) returns (ok: bool)
      requires Valid() && n < TWO31
      modifies this`fields, this`state
      ensures Valid() && ok == (n >= 0)
      ensures ok ==> fields == Normalised(old(fields).(timeout := n)) && Modified(state)
      ensures !ok ==> fields == old(fields) && state == old(state)
    {
      hide ValidUsername, NatMessage, OptText, SetFlag, Modified;
      if n < 0 {
        return false;
      }
      fields := fields.(timeout := n);
      state := SetFlag(state, DATA_MODIFIED);
      SetInside(old(state), DATA_MODIFIED);
      var t := fields.msgType;
      if n > 0 {
        match t
        case 3 => fields := fields.(msgType := CLIENT_TIMEOUT_ACCESS_MSG);
        case 4 => fields := fields.(msgType := CLIENT_TIMEOUT_NAT_ACCESS_MSG);
        case 7 => fields := fields.(msgType := CLIENT_TIMEOUT_LOCAL_NAT_ACCESS_MSG);
        case _ =>
      } else {
        match t
        case 5 => fields := fields.(msgType := ACCESS_MSG);
        case 6 => fields := fields.(msgType := NAT_ACCESS_MSG);
        case 8 => fields := fields.(msgType := LOCAL_NAT_ACCESS_MSG);
        case _ =>
      }
      if fields.msgType != t {
        var s := state;
        state := SetFlag(s, MSG_TYPE_MODIFIED);
        SetInside(s, MSG_TYPE_MODIFIED);
      }
      ok := true;
    }

    method DigestType(a: Hashes.Algorithm)
      requires Valid()
      modifies this`digestType, this`state
      ensures Valid() && digestType == a && Modified(state)
    {
      digestType := a;
      state := SetFlag(state, DIGEST_TYPE_MODIFIED);
      SetInside(old(state), DIGEST_TYPE_MODIFIED);
    }

    method EncryptionType(t: int) returns (ok: bool)
      requires Valid()
      modifies this`encryptionType, this`state
      ensures Valid() && ok == (0 <= t < 3)
      ensures ok ==> encryptionType == t && Modified(state)
      ensures !ok ==> encryptionType == old(encryptionType) && state == old(state)
    {
      ok := 0 <= t < 3;
      if ok {
        encryptionType := t;
        state := SetFlag(state, ENCRYPT_TYPE_MODIFIED);
        SetInside(old(state), ENCRYPT_TYPE_MODIFIED);
      }
    }

    // The mode and the HMAC type are not part of the encoded message and set flags of their own.
    method EncryptionMode(m: int) returns (ok: bool)
      requires Valid()
      modifies this`encryptionMode, this`state
      ensures Valid() && ok == (0 <= m < LAST_ENC_MODE)
      ensures encryptionMode == (if ok then m else old(encryptionMode)) && Modified(state) == Modified(old(state))
    {
      ok := 0 <= m < LAST_ENC_MODE;
      if ok {
        encryptionMode := m;
        state := SetFlag(state, ENCRYPT_MODE_MODIFIED);
        SetOutside(old(state), ENCRYPT_MODE_MODIFIED);
      }
    }

    method HmacType(a: Option<Hashes.Algorithm>)
      requires Valid()
      modifies this`hmacType, this`state
      ensures Valid() && hmacType == a && Modified(state) == Modified(old(state))
    {
      hmacType := a;
      state := SetFlag(state, HMAC_MODE_MODIFIED);
      SetOutside(old(state), HMAC_MODE_MODIFIED);
    }

    // Whether or not a setter accepts its argument, the flags stay truthful.
    method Apply(op: Setter)
      requires Valid() && Coherent() && Passable(op)
      modifies this
      ensures Valid() && Coherent() && fields == Applied(aton, old(fields), op)
      ensures sdpMode == old(sdpMode) && sdpId == old(sdpId)
    {
      hide EncodedText, DigestText, Modified, ValidUsername, NatMessage, ValidMessage, NatForced, Normalised, SdpIdText;
      var ok;
      match op
      case SetMessageType(t) => ok := MessageType(t);
      case SetMessage(s) => ok := Message(s);
      case SetNatAccess(s) => ok := NatAccess(s);
      case SetServerAuth(s) => ok := ServerAuth(s);
      case SetClientTimeout(n) => ok := ClientTimeout(n);
      case _ => ApplyPlain(op);
    }

    method ApplyPlain(op: Setter)
      requires Valid() && Coherent() && Passable(op)
      requires !(op.SetMessageType? || op.SetMessage? || op.SetNatAccess? || op.SetServerAuth? || op.SetClientTimeout?)
      modifies this
      ensures Valid() && Coherent() && fields == Applied(aton, old(fields), op)
      ensures sdpMode == old(sdpMode) && sdpId == old(sdpId)
    {
      hide EncodedText, DigestText, Modified, ValidUsername, NatMessage, ValidMessage, NatForced, Normalised, SdpIdText;
      var ok;
      match op
      case SetRandValue(s) => ok := RandValue(s);
      case SetUsername(s, env) => ok := Username(s, env);
      case SetTimestamp(n) => ok := Timestamp(n);
      case SetDigestType(a) => DigestType(a);
      case SetEncryptionType(t) => ok := EncryptionType(t);
      case SetEncryptionMode(m) => ok := EncryptionMode(m);
      case SetHmacType(a) => HmacType(a);
    }

    // The two setters that set no flag keep it truthful exactly when they change nothing that
    // has been encoded. What has been encoded stays.
    method SdpId(id: bv32)
      requires Valid() && Coherent()
      modifies this`sdpId
      ensures Valid() && Encoded() && sdpId == id
      ensures Coherent() <==> Modified(state) || !sdpMode || id == old(sdpId)
    {
      hide EncodedText, DigestText, Modified, SdpIdText;
      sdpId := id;
      SdpIdInjective(id, old(sdpId));
    }

    method DisableSdpMode(disable: bool)
      requires Valid() && Coherent()
      modifies this`sdpMode
      ensures Valid() && sdpMode == !disable
      ensures disable || |encodedSdpId| == SDP_ID_LEN ==> Encoded()
      ensures Coherent() <==> Modified(state) || sdpMode == old(sdpMode)
    {
      hide EncodedText, DigestText, Modified, SdpIdText, NatMessage, ValidUsername;
      sdpMode := !disable;
      ModesDiffer(fields);
    }

    // ----- encoding and encrypting -----

    // What none of the steps below changes.
    twostate predicate SameSettings()
      reads this
    {
      unchanged(`sdpMode, `sdpId, `digestType, `encryptionType, `encryptionMode, `hmacType)
    }

    predicate Encodable()
      requires Valid()
      reads this
    {
      (sdpMode ==> sdpId != 0) && Complete(fields, sdpMode) && ValidMsgLen(|EncodedText(fields, sdpMode)|)
    }

    lemma AlwaysFits()
      requires Valid()
      ensures Fits(fields, sdpMode) && Sized(fields, sdpMode) && IsCString(PROTOCOL_VERSION)
    {
      hide ValidUsername, NatMessage;
    }

    method SetDigest(text: Bytes)
      requires encodedMsg == Some(text)
      modifies this`digest
      ensures digest == Some(DigestText(h, digestType, text))
    {
      var d := Base64.EncodeStripped(Hashes.Digest(h, digestType, text));
      digest := Some(d);
    }

    method EncodeSdpData() returns (ok: bool)
      requires Valid() && sdpMode
      modifies this
      ensures Valid() && SameSettings() && fields == old(fields)
      ensures ok == old(Encodable())
      ensures if ok then !Modified(state) && Coherent() else state == old(state)
      ensures old(Coherent()) ==> Coherent()
    {
      hide EncodedText, DigestText, ValidUsername, NatMessage, Modified, ClearModified, SdpIdText, Complete;
      AlwaysFits();
      if sdpId == 0 {
        return false;
      }
      var r := EncodeSdp(fields);
      if r.None? {
        return false;
      }
      var id := Base64.EncodeStripped(BlockHash.WordLittleEndian(sdpId));
      SdpIdIs(sdpId);
      encodedSdpId := id;
      encodedMsg := r;
      if !ValidMsgLen(|r.value|) {
        return false;
      }
      SetDigest(r.value);
      Cleared(state);
      state := ClearModified(state);
      ok := true;
    }

    method EncodeLegacyData() returns (ok: bool)
      requires Valid() && !sdpMode
      modifies this
      ensures Valid() && SameSettings()
      ensures ok == old(Encodable())
      ensures if ok then !Modified(state) && Coherent() && fields == Normalised(old(fields))
              else state == old(state) || Modified(state)
      ensures fields == old(fields) || fields == Normalised(old(fields))
      ensures old(Coherent()) ==> Coherent()
    {
      hide EncodedText, DigestText, ValidUsername, NatMessage, Modified, ClearModified, SdpIdText, Complete, Normalised;
      AlwaysFits();
      var r := EncodeLegacy(fields);
      if r.None? {
        return false;
      }
      NormalisedTwice(fields);
      var done := ClientTimeout(fields.timeout);
      encodedMsg := r;
      if !ValidMsgLen(|r.value|) {
        return false;
      }
      SetDigest(r.value);
      Cleared(state);
      state := ClearModified(state);
      ok := true;
    }

    method EncodeSpaData() returns (ok: bool)
      requires Valid()
      modifies this
      ensures Valid() && SameSettings()
      ensures ok == old(Encodable())
      ensures if ok then !Modified(state) && Coherent() else state == old(state) || Modified(state)
      ensures fields == old(fields) || (!sdpMode && fields == Normalised(old(fields)))
      ensures old(Coherent()) ==> Coherent()
    {
      hide EncodedText, DigestText, ValidUsername, NatMessage, Modified, SdpIdText, Complete, Normalised;
      if sdpMode {
        ok := EncodeSdpData();
      } else {
        ok := EncodeLegacyData();
      }
    }

    // Encodes again when a flag says so, and encrypts what is encoded.
    method EncryptSpaData(key: Bytes, salt: CipherFuncs.Salt) returns (ok: bool)
      requires Valid() && Encoded()
      modifies this
      ensures Valid() && Encoded() && SameSettings() && (old(Coherent()) ==> Coherent())
      ensures fields == old(fields) || (!sdpMode && fields == Normalised(old(fields)))
      ensures !Modified(old(state)) ==> unchanged(`fields, `state, `encodedMsg, `encodedSdpId)
      ensures ok ==> !Modified(state) && (Modified(old(state)) ==> Coherent())
      ensures ok ==> encryptionType == ENCRYPTION_RIJNDAEL
                     && Encrypt(h, encryptionMode, key, salt, encodedMsg.value, digestType) == Some(encryptedMsg)
      ensures Modified(old(state)) && encryptionType == ENCRYPTION_RIJNDAEL ==>
                var text := EncodedText(old(fields), sdpMode);
                ok == (old(Encodable()) && Encrypt(h, encryptionMode, key, salt, text, digestType).Some?)
      ensures !Modified(old(state)) && encryptionType == ENCRYPTION_RIJNDAEL ==>
                ok == Encrypt(h, encryptionMode, key, salt, encodedMsg.value, digestType).Some?
    {
      hide EncodedText, DigestText, ValidUsername, NatMessage, Modified, SdpIdText, Complete, Encrypt;
      if encodedMsg.None? || Modified(state) {
        ok := EncodeSpaData();
        if !ok {
          return;
        }
      }
      NormalisedTwice(old(fields));
      if encryptionType != ENCRYPTION_RIJNDAEL {
        return false;
      }
      var r := RijndaelEncrypt(h, encryptionMode, key, salt, encodedMsg.value, digest.value, digestType);
      ok := r.Some?;
      if ok {
        encryptedMsg := r.value;
      }
    }

    function Id(): Option<bv32>
      reads this
    {
      if sdpMode then Some(sdpId) else None
    }

    function Shared(key: Bytes, hmacKey: Bytes): Secrets
      reads this
    {
      Secrets(key, encryptionMode, hmacType, hmacKey)
    }

    // The text of the id that goes in front of a packet.
    function IdSent(): Bytes
      reads this
    {
      if sdpMode then encodedSdpId else []
    }

    // Takes the prefix off the encrypted message, puts the id in front and appends the HMAC.
    method Assemble(key: Bytes, hmacKey: Bytes) returns (ok: bool)
      requires |encryptedMsg| >= PREFIX_LEN
      modifies this`encryptedMsg, this`msgHmac
      ensures var p := Wrap(h, Shared(key, hmacKey), IdSent(), old(encryptedMsg));
              ok == p.Some? && (ok ==> p == Some(encryptedMsg))
    {
      hide Hmac.Rfc2104, B64;
      var rest := encryptedMsg[PREFIX_LEN..];
      var body := if sdpMode then encodedSdpId + rest else rest;
      assert [] + rest == rest;
      if !ValidMsgLen(|body| + 1) {
        return false;
      }
      encryptedMsg := body;
      if !ValidMsgLen(|body|) {
        return false;
      }
      if hmacType.Some? {
        if |hmacKey| > MAX_HMAC_KEY_LEN {
          return false;
        }
        msgHmac := HmacOf(h, hmacType.value, hmacKey, body);
        encryptedMsg := body + msgHmac;
      }
      ok := true;
    }

    // The message that was encrypted with these secrets to make the current packet.
    ghost predicate Sent(key: Bytes, hmacKey: Bytes, salt: CipherFuncs.Salt, id: Bytes, text: Bytes)
      reads this
    {
      var c := Encrypt(h, encryptionMode, key, salt, text, digestType);
      c.Some? && |c.value| >= PREFIX_LEN && Wrap(h, Shared(key, hmacKey), id, c.value) == Some(encryptedMsg)
    }

    // Whether a packet can be made of an encoded text of this length.
    predicate CanSend(key: Bytes, hmacKey: Bytes, n: nat)
      reads this
    {
      && encryptionType == ENCRYPTION_RIJNDAEL && n + Hashes.B64Len(digestType) <= 1102
      && |key| <= MAX_KEY_LEN && HmacKeyFits(Shared(key, hmacKey))
    }

    // The packet is made of what is encoded: of the current fields, unless one of the two setters
    // without a flag changed something afterwards.
    method SpaDataFinal(key: Bytes, hmacKey: Bytes, salt: CipherFuncs.Salt) returns (ok: bool)
      requires Valid() && Encoded()
      modifies this
      ensures Valid() && Encoded() && SameSettings() && (old(Coherent()) ==> Coherent())
      ensures fields == old(fields) || (!sdpMode && fields == Normalised(old(fields)))
      ensures ok ==> !Modified(state) && Sent(key, hmacKey, salt, IdSent(), encodedMsg.value)
      ensures Modified(old(state)) && encryptionType == ENCRYPTION_RIJNDAEL ==>
                var p := Packet(h, Shared(key, hmacKey), salt, Id(), old(fields), digestType);
                ok == p.Some? && (ok ==> p == Some(encryptedMsg))
      ensures !Modified(old(state)) ==>
                && unchanged(`fields, `encodedMsg, `encodedSdpId)
                && ok == CanSend(key, hmacKey, |encodedMsg.value|)
    {
      hide EncodedText, DigestText, ValidUsername, NatMessage, Modified, SdpIdText, Complete, Wrap, CipherText, Encrypt;
      hide HmacKeyFits, Plaintext;
      AlwaysFits();
      NormalisedTwice(fields);
      ok := EncryptSpaData(key, salt);
      EncryptExactly(h, encryptionMode, key, salt, EncodedText(old(fields), sdpMode), digestType);
      if encodedMsg.Some? {
        EncryptExactly(h, encryptionMode, key, salt, encodedMsg.value, digestType);
      }
      if !ok {
        return;
      }
      EncryptedWraps(h, Shared(key, hmacKey), salt, IdSent(), encodedMsg.value, digestType);
      ok := Assemble(key, hmacKey);
    }

    // After any sequence of setters, encodings, encryptions and packets.
    method Run(steps: seq<Step>)
      requires Valid() && Coherent() && forall i | 0 <= i < |steps| && steps[i].SetStep? :: Passable(steps[i].setter)
      modifies this
      ensures Valid() && Coherent()
    {
      for i := 0 to |steps|
        invariant Valid() && Coherent()
      {
        var ok;
        match steps[i]
        case SetStep(op) => Apply(op);
        case EncodeStep => ok := EncodeSpaData();
        case EncryptStep(key, salt) => ok := EncryptSpaData(key, salt);
        case FinalStep(key, hmacKey, salt) => ok := SpaDataFinal(key, hmacKey, salt);
      }
    }
  }

  // fko_set_spa_hmac
  method HmacOf(h: Hashes.Functions, a: Hashes.Algorithm, key: Bytes, msg: Bytes) returns (text: Bytes)
    requires |key| <= MAX_HMAC_KEY_LEN
    ensures text == HmacText(h, a, key, msg)
  {
    hide Hmac.Rfc2104, Base64.Unpadded;
    var d := Hmac.Compute(h, a, msg, key);
    text := Base64.EncodeStripped(d);
  }

  // _rijndael_encrypt: the text and its digest in an envelope, in base64 without padding.
  method RijndaelEncrypt(h: Hashes.Functions, mode: int, key: Bytes, salt: CipherFuncs.Salt, text: Bytes, digest: Bytes,
                         ghost a: Hashes.Algorithm)
      returns (r: Option<Bytes>)
    requires digest == DigestText(h, a, text)
    ensures r == Encrypt(h, mode, key, salt, text, a)
  {
    hide CipherFuncs.Sealed, Base64.Unpadded, DigestText, Zeros;
    if |key| > MAX_KEY_LEN || !ValidMsgLen(|text|) {
      return None;
    }
    var pt := text + [COLON] + digest;
    if !ValidMsgLen(|pt|) {
      return None;
    }
    var plaintext := new bv8[|text| + |digest| + 16 + 2](_ => 0);
    CopyInto(plaintext, 0, pt);
    assert plaintext[..|pt|] == pt;
    var ciphertext := new bv8[|pt| + 32](_ => 0);
    ZeroArray(ciphertext[..]);
    var n := CipherFuncs.Encrypt(h, plaintext, |pt|, key, ciphertext, mode, salt);
    var b64 := Base64.EncodeStripped(ciphertext[..n]);
    r := if ValidMsgLen(|b64|) then Some(b64) else None;
  }

  lemma ZeroArray(s: Bytes)
    requires forall i | 0 <= i < |s| :: s[i] == 0
    ensures s == Zeros(|s|)
  {
  }

  // ----- the receiver -----

  lemma SignedExactly(h: Hashes.Functions, s: Secrets, msg: Bytes)
    ensures forall body :: CheckHmac(h, s, msg) == Some(body) <==>
              && 36 <= |msg| < 1500 && 36 <= |body| && |s.hmacKey| <= 128
              && s.hmac.Some? && Signed(h, s.hmac.value, s.hmacKey, msg, body)
  {
    hide CheckHmac, Signed;
    forall body
      ensures CheckHmac(h, s, msg) == Some(body) <==>
                && 36 <= |msg| < 1500 && 36 <= |body| && |s.hmacKey| <= 128
                && s.hmac.Some? && Signed(h, s.hmac.value, s.hmacKey, msg, body)
    {
      CheckHmacExactly(h, s, msg, body);
    }
  }

  method VerifyHmac(h: Hashes.Functions, s: Secrets, msg: Bytes) returns (r: Option<Bytes>)
    ensures r == CheckHmac(h, s, msg)
    ensures forall body :: r == Some(body) <==>
              && 36 <= |msg| < 1500 && 36 <= |body| && |s.hmacKey| <= 128
              && s.hmac.Some? && Signed(h, s.hmac.value, s.hmacKey, msg, body)
  {
    hide HmacText, Signed;
    SignedExactly(h, s, msg);
    if !ValidMsgLen(|msg|) || |s.hmacKey| > MAX_HMAC_KEY_LEN || s.hmac.None? {
      return None;
    }
    var n := |msg| - Hashes.B64Len(s.hmac.value);
    if n < MIN_MSG_SIZE {
      return None;
    }
    var fromData := msg[n..];
    var chopped := msg[..n];
    var computed := HmacOf(h, s.hmac.value, s.hmacKey, chopped);
    r := if fromData == computed then Some(chopped) else None;
  }

  method CheckDecrypted(pt: Bytes) returns (ok: bool)
    requires ValidMsgLen(|pt|)
    ensures ok == LooksDecrypted(pt)
  {
    hide IsDigit;
    var err := 0;
    for i := 0 to RAND_VAL_SIZE
      invariant err >= 0 && (err == 0 <==> forall j | 0 <= j < i :: IsDigit(pt[j]))
    {
      if !IsDigit(pt[i]) {
        err := err + 1;
      }
    }
    ok := err == 0 && pt[RAND_VAL_SIZE] == COLON;
  }

  // _rijndael_decrypt on a decoded envelope; an envelope of one block is always refused.
  method OpenAndDecode(h: Hashes.Functions, aton: InetAton, s: Secrets, sdp: bool, c: Bytes, before: Rijndael.Block)
      returns (r: Option<Decoded>)
    requires |s.key| <= MAX_KEY_LEN && |c| % 16 == 0 && |c| >= 16
    ensures |c| == 16 ==> r == None
    ensures |c| >= 32 ==>
              var pt := CipherFuncs.Opened(h, s.mode, s.key, c);
              r == if |pt| < |c| - 32 || !ValidMsgLen(|pt|) || !LooksDecrypted(pt) then None
                   else Decode(h, aton, sdp, pt)
  {
    hide CipherFuncs.Opened, Decode, LooksDecrypted, Zeros;
    var cipher := new bv8[|c|](i requires 0 <= i < |c| => c[i]);
    var msg := new bv8[|c|](_ => 0);
    ZeroArray(msg[..]);
    assert cipher[..|c|] == c;
    var n := CipherFuncs.Decrypt(h, cipher, |c|, s.key, msg, s.mode, before);
    if n < |c| - 32 || n <= 0 || !ValidMsgLen(n) {
      return None;
    }
    var pt := msg[..n];
    var ok := CheckDecrypted(pt);
    if !ok {
      return None;
    }
    r := DecodeSpaData(h, aton, sdp, msg, n);
  }

  method DecryptSpaData(h: Hashes.Functions, aton: InetAton, s: Secrets, sdp: bool, msg: Bytes, before: Rijndael.Block)
      returns (r: Option<Decoded>)
    ensures r == Decrypt(h, aton, s, sdp, msg)
  {
    hide CipherFuncs.Opened, Decode, LooksDecrypted, Base64.Decoded, IsBase64;
    if !ValidMsgLen(|msg|) || |msg| >= MIN_GNUPG_MSG_SIZE || |s.key| > MAX_KEY_LEN {
      return None;
    }
    var c64 := AddSaltedStr(msg);
    if c64.None? {
      return None;
    }
    var cipher := new bv8[|c64.value|](_ => 0);
    var len := Base64.Decode(c64.value, cipher);
    if len < 0 || len % 16 != 0 {
      return None;
    }
    OneBlockExactly(msg);
    r := OpenAndDecode(h, aton, s, sdp, cipher[..len], before);
  }

  lemma GenuineExactly(h: Hashes.Functions, aton: InetAton, s: Secrets, id: Option<bv32>, packet: Bytes)
    ensures forall d :: Received(h, aton, s, id, packet) == Some(d) <==> Genuine(h, aton, s, id.Some?, packet, d)
  {
    hide Received, Genuine;
    forall d ensures Received(h, aton, s, id, packet) == Some(d) <==> Genuine(h, aton, s, id.Some?, packet, d) {
      ReceivedExactly(h, aton, s, id, packet, d);
    }
  }

  // fko_new_with_data: the fields of the context it builds.
  method NewWithData(h: Hashes.Functions, aton: InetAton, s: Secrets, id: Option<bv32>, packet: Bytes,
                     before: Rijndael.Block)
      returns (r: Option<Decoded>)
    ensures r == Received(h, aton, s, id, packet)
    ensures forall d :: r == Some(d) <==> Genuine(h, aton, s, id.Some?, packet, d)
  {
    hide CheckHmac, Decrypt, Genuine, Signed;
    GenuineExactly(h, aton, s, id, packet);
    if !ValidMsgLen(|packet|) || !(0 <= s.mode < LAST_ENC_MODE) {
      return None;
    }
    var msg := packet;
    if |s.hmacKey| > 0 {
      var checked := VerifyHmac(h, s, packet);
      if checked.None? {
        return None;
      }
      msg := checked.value;
      CheckedLength(h, s, packet);
    }
    if id.Some? {
      msg := msg[SDP_ID_LEN..];
      if !ValidMsgLen(|msg|) {
        return None;
      }
    }
    r := DecryptSpaData(h, aton, s, id.Some?, msg, before);
  }

  // One packet from a sender's context to a receiver with the same secrets and id.
  method Exchange(c: Context, key: Bytes, hmacKey: Bytes, salt: CipherFuncs.Salt, before: Rijndael.Block)
      returns (sent: bool, r: Option<Decoded>)
    requires c.Valid() && c.Coherent()
    requires AllDigits(c.fields.rand) && c.fields.message != [] && Agreed(c.Shared(key, hmacKey))
    modifies c
    ensures sent ==>
              var f, sdp, a := old(c.fields), c.sdpMode, c.digestType;
              var text := EncodedText(f, sdp);
              r == Some(Decoded(Carried(f, sdp), a, DigestText(c.h, a, text)))
              <==>
              && |text| + Hashes.B64Len(a) <= 286
              && BlockModes.Supported(CipherFuncs.CipherMode(c.encryptionMode))
              && Recoverable(c.aton, f, sdp)
  {
    hide EncodedText, DigestText, ValidUsername, NatMessage, Received, Packet, CipherText, Carried, Recoverable;
    hide Plaintext;
    hide BlockModes.Supported, CipherFuncs.CipherMode, AllDigits, Modified, Wrap, Encrypt, Normalised, Complete;
    ghost var f := c.fields;
    SendableNow(c);
    NormalisedTwice(f);
    sent := c.SpaDataFinal(key, hmacKey, salt);
    if !sent {
      return sent, None;
    }
    r := NewWithData(c.h, c.aton, c.Shared(key, hmacKey), c.Id(), c.encryptedMsg, before);
    ghost var text := c.encodedMsg.value;
    assert text == EncodedText(f, c.sdpMode) && c.IdSent() == IdText(c.Id());
    EndToEnd(c.h, c.aton, c.Shared(key, hmacKey), salt, c.Id(), f, c.digestType,
             Encrypt(c.h, c.encryptionMode, key, salt, text, c.digestType).value, c.encryptedMsg);
  }

  lemma SendableNow(c: Context)
    requires c.Valid() && AllDigits(c.fields.rand) && c.fields.message != []
    ensures Sendable(c.aton, c.fields, c.sdpMode)
  {
    hide ValidUsername, NatMessage, AllDigits;
    VersionIsPlain();
  }

  lemma VersionIsPlain()
    ensures AllPrint(PROTOCOL_VERSION) && NoColon(PROTOCOL_VERSION)
  {
  }

  // What is encrypted can be wrapped if the HMAC key is not too long.
  lemma EncryptedWraps(h: Hashes.Functions, s: Secrets, salt: CipherFuncs.Salt, id: Bytes, text: Bytes,
                       a: Hashes.Algorithm)
    requires Encrypt(h, s.mode, s.key, salt, text, a).Some? && |id| <= SDP_ID_LEN
    ensures var c := Encrypt(h, s.mode, s.key, salt, text, a).value;
            |c| >= PREFIX_LEN && (Wrap(h, s, id, c).Some? <==> HmacKeyFits(s))
  {
    hide CipherText, Plaintext, Wrap, HmacKeyFits;
    PlaintextSize(h, a, text);
    EncryptExactly(h, s.mode, s.key, salt, text, a);
    EncryptedSize(h, s.mode, s.key, salt, Plaintext(h, a, text));
    WrapExactly(h, s, id, Encrypt(h, s.mode, s.key, salt, text, a).value);
  }

  // ----- what is sent after a setter without a flag -----

  // The packet still has the id that was encoded in front.
  method SendWithNewId(c: Context, id: bv32, key: Bytes, hmacKey: Bytes, salt: CipherFuncs.Salt) returns (sent: bool)
    requires c.Valid() && c.Coherent() && !Modified(c.state) && c.sdpMode
    modifies c
    ensures c.sdpId == id
    ensures sent == old(c.CanSend(key, hmacKey, |EncodedText(c.fields, true)|))
    ensures sent ==> SdpIdText(old(c.sdpId)) <= c.encryptedMsg
    ensures sent ==> (SdpIdText(id) <= c.encryptedMsg <==> id == old(c.sdpId))
  {
    hide EncodedText, DigestText, ValidUsername, NatMessage, Modified, SdpIdText, Complete, Wrap, Encrypt;
    ghost var first := c.sdpId;
    c.SdpId(id);
    sent := c.SpaDataFinal(key, hmacKey, salt);
    if sent {
      SdpIdInjective(id, first);
      ghost var e := Encrypt(c.h, c.encryptionMode, key, salt, c.encodedMsg.value, c.digestType).value;
      IdInFront(c.h, c.Shared(key, hmacKey), c.IdSent(), e);
      assert SdpIdText(id) <= c.encryptedMsg ==> SdpIdText(id) == c.encryptedMsg[..SDP_ID_LEN] == SdpIdText(first);
    }
  }

  lemma IdInFront(h: Hashes.Functions, s: Secrets, id: Bytes, c: Bytes)
    requires |c| >= PREFIX_LEN && Wrap(h, s, id, c).Some?
    ensures id <= Wrap(h, s, id, c).value
  {
    hide HmacText;
  }

  // After the mode is switched the packet still carries the text of the other mode.
  method SendInOtherMode(c: Context, key: Bytes, hmacKey: Bytes, salt: CipherFuncs.Salt) returns (sent: bool)
    requires c.Valid() && c.Coherent() && !Modified(c.state) && (!c.sdpMode ==> |c.encodedSdpId| == SDP_ID_LEN)
    modifies c
    ensures c.Valid() && c.sdpMode == !old(c.sdpMode) && c.fields == old(c.fields)
    ensures sent == old(c.CanSend(key, hmacKey, |EncodedText(c.fields, c.sdpMode)|))
    ensures sent ==> c.Sent(key, hmacKey, salt, c.IdSent(), EncodedText(c.fields, !c.sdpMode))
    ensures EncodedText(c.fields, true) != EncodedText(c.fields, false)
  {
    hide EncodedText, DigestText, ValidUsername, NatMessage, Modified, SdpIdText, Complete, Wrap, Encrypt;
    ModesDiffer(c.fields);
    c.DisableSdpMode(c.sdpMode);
    sent := c.SpaDataFinal(key, hmacKey, salt);
  }

  // Such a context: one access message, encoded in SDP mode.
  method EncodedContext(h: Hashes.Functions, aton: InetAton, id: bv32) returns (c: Context)
    requires aton(IP) && id != 0
    ensures fresh(c) && c.h == h && c.aton == aton && c.Valid() && c.Coherent() && !Modified(c.state)
    ensures c.sdpMode && c.sdpId == id && c.encryptionType == ENCRYPTION_RIJNDAEL && c.hmacType.None?
    ensures |EncodedText(c.fields, true)| == 39 && c.digestType == Hashes.SHA256
  {
    hide EncodedText, DigestText, NatMessage, Modified, SdpIdText, AccessMessage, B64;
    var rand: Bytes := seq(16, _ => 0x30);
    var message := IP + [COMMA] + SPEC;
    c := new Context(h, aton, rand, [0x61], 0);
    c.SdpId(id);
    ExampleAccess(aton);
    var ok := c.Message(message);
    PlainTextLength(c.fields, true);
    B64Plain(message);
    ok := c.EncodeSpaData();
  }

  // The new id is not in the packet, the old one is.
  method StaleId(h: Hashes.Functions, aton: InetAton, id: bv32, next: bv32, key: Bytes, salt: CipherFuncs.Salt)
      returns (packet: Bytes)
    requires aton(IP) && id != 0 && next != id && |key| <= MAX_KEY_LEN
    ensures SdpIdText(id) <= packet && !(SdpIdText(next) <= packet)
  {
    hide EncodedText, DigestText, ValidUsername, NatMessage, Modified, SdpIdText;
    var c := EncodedContext(h, aton, id);
    var sent := SendWithNewId(c, next, key, [], salt);
    packet := c.encryptedMsg;
  }

  lemma CheckedLength(h: Hashes.Functions, s: Secrets, msg: Bytes)
    ensures CheckHmac(h, s, msg).Some? ==> |CheckHmac(h, s, msg).value| >= MIN_MSG_SIZE
  {
    hide HmacText;
  }

  lemma SdpIdIs(id: bv32)
    ensures SdpIdText(id) == Base64.Unpadded(BlockHash.WordLittleEndian(id))
  {
  }

  lemma NormalisedTwice(f: Fields)
    requires Printable(f)
    ensures Normalised(Normalised(f)) == Normalised(f) && f.(timeout := f.timeout) == f
    ensures EncodedText(Normalised(f), false) == EncodedText(f, false)
  {
    hide Join, LegacyParts, TypeFor;
    TypeForTimeout(f.msgType, f.timeout);
  }

  lemma SdpIdInjective(a: bv32, b: bv32)
    ensures SdpIdText(a) == SdpIdText(b) <==> a == b
  {
    hide Base64.Unpadded, Base64.Decoded, BlockHash.WordLittleEndian;
    var x, y := BlockHash.WordLittleEndian(a), BlockHash.WordLittleEndian(b);
    Base64.DecodeEncode(x, []);
    Base64.DecodeEncode(y, []);
    assert B64(x) + [] == B64(x) && B64(y) + [] == B64(y);
    WordInjective(a, b);
  }

  lemma WordInjective(a: bv32, b: bv32)
    ensures BlockHash.WordLittleEndian(a) == BlockHash.WordLittleEndian(b) <==> a == b
  {
    var x, y := BlockHash.WordLittleEndian(a), BlockHash.WordLittleEndian(b);
    if x == y {
      assert x[0] == y[0] && x[1] == y[1] && x[2] == y[2] && x[3] == y[3];
      SameBytes(a, b);
    }
  }

  lemma SameBytes(a: bv32, b: bv32)
    requires (a & 0xff) as bv8 == (b & 0xff) as bv8 && ((a >> 8) & 0xff) as bv8 == ((b >> 8) & 0xff) as bv8
    requires ((a >> 16) & 0xff) as bv8 == ((b >> 16) & 0xff) as bv8
    requires ((a >> 24) & 0xff) as bv8 == ((b >> 24) & 0xff) as bv8
    ensures a == b
  {
  }

  // The legacy text is longer than the SDP text of the same fields.
  lemma ModesDiffer(f: Fields)
    requires Sized(f, false)
    ensures EncodedText(f, true) != EncodedText(f, false)
  {
    hide EncodedText, Join, SdpParts, LegacyParts, PartsLength;
    NotCut(f, true);
    NotCut(f, false);
    JoinLength(SdpParts(f));
    JoinLength(LegacyParts(Normalised(f)));
    LegacyLonger(f);
  }

  lemma LegacyLonger(f: Fields)
    requires Sized(f, false)
    ensures SdpParts(f) != [] && LegacyParts(Normalised(f)) != []
    ensures PartsLength(LegacyParts(Normalised(f))) > PartsLength(SdpParts(f))
  {
    hide B64, Dec, Tail, PartsLength, TimeoutPart, TypeFor;
    var c := Normalised(f);
    var ts, u := Dec(f.timestamp % TWO32), B64(f.username);
    DecOne(f.msgType);
    DecOne(c.msgType);
    LengthThree(f.rand, ts, Dec(f.msgType));
    LengthAppend([f.rand, ts, Dec(f.msgType)], Tail(f));
    LengthThree(f.rand, u, ts);
    LengthTwo(f.version, Dec(c.msgType));
    LengthAppend([f.rand, u, ts], [f.version, Dec(c.msgType)]);
    LengthAppend([f.rand, u, ts] + [f.version, Dec(c.msgType)], Tail(c));
    LengthAppend([f.rand, u, ts] + [f.version, Dec(c.msgType)] + Tail(c), TimeoutPart(c));
    assert LegacyParts(c) == [f.rand, u, ts] + [f.version, Dec(c.msgType)] + Tail(c) + TimeoutPart(c);
    SameTail(f, c);
  }

  lemma SameTail(f: Fields, g: Fields)
    requires f.message == g.message && f.natAccess == g.natAccess && f.serverAuth == g.serverAuth
    ensures Tail(f) == Tail(g)
  {
  }

  // "2.0.2"
  const PROTOCOL_VERSION: Bytes := [0x32, 0x2e, 0x30, 0x2e, 0x32]
}
