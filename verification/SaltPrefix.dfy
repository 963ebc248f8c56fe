/**
 The constant prefix of an encrypted message. Every envelope starts with "Salted__", so
 its encoding starts with the same ten characters; the sender drops them and the receiver
 puts them back.
 */
module SaltPrefix {
  import opened Common
  import Base64
  import CipherFuncs

  const PREFIX_LEN := 10

  // "U2FsdGVkX1"
  const PREFIX: Bytes := [0x55, 0x32, 0x46, 0x73, 0x64, 0x47, 0x56, 0x6b, 0x58, 0x31]

  // '8', '9', '+' or '/'
  predicate NextChar(c: bv8) { c == 0x38 || c == 0x39 || c == 0x2b || c == 0x2f }

  lemma GroupSal()
    ensures Base64.B64Table(Base64.GroupSextet(0, 0x53, 0x61, 0x6c)) == 0x55
    ensures Base64.B64Table(Base64.GroupSextet(1, 0x53, 0x61, 0x6c)) == 0x32
    ensures Base64.B64Table(Base64.GroupSextet(2, 0x53, 0x61, 0x6c)) == 0x46
    ensures Base64.B64Table(Base64.GroupSextet(3, 0x53, 0x61, 0x6c)) == 0x73
  {
  }

  lemma GroupTed()
    ensures Base64.B64Table(Base64.GroupSextet(0, 0x74, 0x65, 0x64)) == 0x64
    ensures Base64.B64Table(Base64.GroupSextet(1, 0x74, 0x65, 0x64)) == 0x47
    ensures Base64.B64Table(Base64.GroupSextet(2, 0x74, 0x65, 0x64)) == 0x56
    ensures Base64.B64Table(Base64.GroupSextet(3, 0x74, 0x65, 0x64)) == 0x6b
  {
  }

  lemma GroupEnd(s: bv8)
    ensures Base64.B64Table(Base64.GroupSextet(0, 0x5f, 0x5f, s)) == 0x58
    ensures Base64.B64Table(Base64.GroupSextet(1, 0x5f, 0x5f, s)) == 0x31
    ensures NextChar(Base64.B64Table(Base64.GroupSextet(2, 0x5f, 0x5f, s)))
  {
  }

  // The encoding of a text that starts with "Salted__" and at least one more byte.
  lemma SaltedEncoding(c: Bytes)
    requires |c| > 8 && c[..8] == CipherFuncs.SALTED
    ensures |Base64.Unpadded(c)| > PREFIX_LEN
    ensures Base64.Unpadded(c)[..PREFIX_LEN] == PREFIX && NextChar(Base64.Unpadded(c)[PREFIX_LEN])
  {
    hide Base64.B64Table, Base64.GroupSextet, NextChar;
    forall i | 0 <= i < 8 ensures c[i] == CipherFuncs.SALTED[i] {
      assert c[i] == c[..8][i];
    }
    GroupSal();
    GroupTed();
    GroupEnd(c[8]);
    var s := Base64.Unpadded(c);
    assert s[..PREFIX_LEN] == PREFIX;
  }

  // add_salted_str: nothing that is not base64 gets the prefix.
  predicate IsBase64(s: Bytes) { forall i | 0 <= i < |s| :: Base64.Base64Char(s[i]) }

  function Salted(msg: Bytes): Option<Bytes> {
    if !IsBase64(msg) then None
    else if |msg| >= PREFIX_LEN && msg[..PREFIX_LEN] == PREFIX then Some(msg)
    else Some(PREFIX + msg)
  }

  method CheckBase64(s: Bytes) returns (ok: bool)
    ensures ok == IsBase64(s)
  {
    hide Base64.Base64Char;
    for i := 0 to |s|
      invariant forall j | 0 <= j < i :: Base64.Base64Char(s[j])
    {
      if !Base64.Base64Char(s[i]) {
        return false;
      }
    }
    return true;
  }

  method AddSaltedStr(msg: Bytes) returns (r: Option<Bytes>)
    requires |msg| >= PREFIX_LEN
    ensures r == Salted(msg)
  {
    var ok := CheckBase64(msg);
    if !ok {
      return None;
    }
    if msg[..PREFIX_LEN] != PREFIX {
      return Some(PREFIX + msg);
    }
    return Some(msg);
  }

  // What the sender keeps never starts with the prefix itself, so the receiver restores the whole.
  lemma PrefixRestored(c: Bytes)
    requires |c| >= 16 && c[..8] == CipherFuncs.SALTED
    ensures |Base64.Unpadded(c)| > PREFIX_LEN
    ensures Salted(Base64.Unpadded(c)[PREFIX_LEN..]) == Some(Base64.Unpadded(c))
  {
    hide Base64.Base64Char;
    SaltedEncoding(c);
    Base64.UnpaddedChars(c);
    var s := Base64.Unpadded(c);
    var rest := s[PREFIX_LEN..];
    assert s == PREFIX + rest;
    assert rest[0] == s[PREFIX_LEN];
    assert |rest| >= PREFIX_LEN ==> rest[..PREFIX_LEN][0] == rest[0];
  }
}
