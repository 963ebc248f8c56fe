/**
 The OpenSSL-compatible envelope of lib/cipher_funcs.c: an MD5 key and IV derivation,
 a "Salted__" header and padding of 1 to 16 bytes around the block modes. Opening an
 envelope undoes sealing it exactly when the mode is one that the block functions handle.
 */
module CipherFuncs {
  import opened Common
  import opened Rijndael
  import opened BlockModes
  import Hashes

  const ENC_MODE_ECB := 1
  const ENC_MODE_CBC := 2
  const ENC_MODE_CFB := 3
  const ENC_MODE_PCBC := 4
  const ENC_MODE_OFB := 5
  const ENC_MODE_CTR := 6
  const ENC_MODE_CBC_LEGACY_IV := 8

  const SALT_LEN := 8
  const MIN_KEYSIZE := 16

  type Salt = s: Bytes | |s| == SALT_LEN witness [0, 0, 0, 0, 0, 0, 0, 0]

  // "Salted__"
  const SALTED: Bytes := [0x53, 0x61, 0x6c, 0x74, 0x65, 0x64, 0x5f, 0x5f]

  function CipherMode(mode: int): int {
    if mode == ENC_MODE_CBC || mode == ENC_MODE_CBC_LEGACY_IV then MODE_CBC
    else if mode == ENC_MODE_CTR then MODE_CTR
    else if mode == ENC_MODE_PCBC then MODE_PCBC
    else if mode == ENC_MODE_OFB then MODE_OFB
    else if mode == ENC_MODE_CFB then MODE_CFB
    else if mode == ENC_MODE_ECB then MODE_ECB
    else mode
  }

  // ----- key and IV derivation -----

  // The password; only the legacy mode fills it up with '0'.
  function Password(key: Bytes, mode: int): (pw: Bytes)
    requires |key| <= MAX_KEYSIZE
    ensures |pw| <= MAX_KEYSIZE
  {
    if mode == ENC_MODE_CBC_LEGACY_IV && |key| < MIN_KEYSIZE
    then key + seq(MIN_KEYSIZE - |key|, _ => 0x30)
    else key
  }

  // D(0) is empty and D(i) = MD5(D(i-1) || password || salt).
  function Link(h: Hashes.Functions, pw: Bytes, salt: Bytes, i: nat): (d: Bytes)
    ensures |d| == if i == 0 then 0 else 16
  {
    if i == 0 then [] else Hashes.Digest(h, Hashes.MD5, Link(h, pw, salt, i - 1) + pw + salt)
  }

  // D(1) || ... || D(i)
  function Chain(h: Hashes.Functions, pw: Bytes, salt: Bytes, i: nat): (d: Bytes)
    ensures |d| == 16 * i
  {
    if i == 0 then [] else Chain(h, pw, salt, i - 1) + Link(h, pw, salt, i)
  }

  function Key(h: Hashes.Functions, pw: Bytes, salt: Salt): (k: Bytes)
    ensures |k| == MAX_KEYSIZE
  {
    Chain(h, pw, salt, 2)
  }

  function Iv(h: Hashes.Functions, pw: Bytes, salt: Salt): Block { Link(h, pw, salt, 3) }

  // One turn of the derivation loop: the next link goes to the front of tmp and the end of kiv.
  method NextLink(h: Hashes.Functions, pw: Bytes, salt: Salt, tmp: array<bv8>, kiv: array<bv8>, kivLen: nat,
                  ghost i: nat)
    requires tmp != kiv && |pw| + 24 <= tmp.Length && kivLen + 16 <= kiv.Length && kivLen == 16 * i
    requires tmp[16..16 + |pw| + 8] == pw + salt
    requires i > 0 ==> tmp[..16] == Link(h, pw, salt, i)
    requires kiv[..kivLen] == Chain(h, pw, salt, i)
    modifies tmp, kiv
    ensures tmp[16..16 + |pw| + 8] == pw + salt
    ensures tmp[..16] == Link(h, pw, salt, i + 1)
    ensures kiv[..kivLen + 16] == Chain(h, pw, salt, i + 1)
  {
    hide Hashes.Digest;
    var n := 16 + |pw| + SALT_LEN;
    ghost var data := Link(h, pw, salt, i) + pw + salt;
    var md5;
    if kivLen == 0 {
      assert data == tmp[16..n];
      md5 := Hashes.Digest(h, Hashes.MD5, tmp[16..n]);
    } else {
      assert data == tmp[..16] + tmp[16..n] == tmp[..n];
      md5 := Hashes.Digest(h, Hashes.MD5, tmp[..n]);
    }
    ghost var tail := tmp[16..];
    CopyInto(tmp, 0, md5);
    assert tmp[16..n] == tail[..n - 16];
    CopyInto(kiv, kivLen, md5);
  }

  method SaltAndIv(h: Hashes.Functions, key: Bytes, salt: Salt, mode: int) returns (k: Bytes, iv: Block)
    requires |key| <= MAX_KEYSIZE
    ensures k == Key(h, Password(key, mode), salt) && iv == Iv(h, Password(key, mode), salt)
  {
    hide Link, Chain, Key, Iv, Password;
    var pw := Password(key, mode);
    var tmp := new bv8[16 + MAX_KEYSIZE + BLOCKSIZE];
    var kiv := new bv8[MAX_KEYSIZE + BLOCKSIZE];
    CopyInto(tmp, 16, pw);
    CopyInto(tmp, 16 + |pw|, salt);
    var kivLen := 0;
    ChainOfThree(h, pw, salt);
    ghost var i := 0;
    while kivLen < kiv.Length
      invariant kivLen == 16 * i && i <= 3
      invariant tmp[16..16 + |pw| + 8] == pw + salt
      invariant i > 0 ==> tmp[..16] == Link(h, pw, salt, i)
      invariant kiv[..kivLen] == Chain(h, pw, salt, i)
    {
      NextLink(h, pw, salt, tmp, kiv, kivLen, i);
      kivLen, i := kivLen + 16, i + 1;
    }
    k, iv := kiv[..MAX_KEYSIZE], kiv[MAX_KEYSIZE..];
    assert kiv[..48] == k + iv;
    SameParts(k, iv, Key(h, pw, salt), Iv(h, pw, salt));
  }

  // Key and IV written out: the three links of the MD5 chain over the password and the salt.
  lemma KeyWrittenOut(h: Hashes.Functions, pw: Bytes, salt: Salt)
    ensures var d1 := Hashes.Digest(h, Hashes.MD5, pw + salt);
            var d2 := Hashes.Digest(h, Hashes.MD5, d1 + pw + salt);
            var d3 := Hashes.Digest(h, Hashes.MD5, d2 + pw + salt);
            Key(h, pw, salt) == d1 + d2 && Iv(h, pw, salt) == d3
  {
    hide Hashes.Digest;
    assert [] + pw + salt == pw + salt;
    assert Link(h, pw, salt, 1) == Hashes.Digest(h, Hashes.MD5, pw + salt);
    assert Chain(h, pw, salt, 1) == Link(h, pw, salt, 1);
  }

  // A password shorter than sixteen characters is filled up with '0' in the legacy mode alone.
  lemma PasswordExactly(key: Bytes, mode: int)
    requires |key| <= MAX_KEYSIZE
    ensures var pw := Password(key, mode);
            && key <= pw && (pw == key <==> mode != ENC_MODE_CBC_LEGACY_IV || |key| >= 16)
            && (pw != key ==> |pw| == 16 && forall i | |key| <= i < 16 :: pw[i] == 0x30)
  {
  }

  lemma SameParts(a: Bytes, b: Bytes, c: Bytes, d: Bytes)
    requires a + b == c + d && |a| == |c|
    ensures a == c && b == d
  {
    assert a == (a + b)[..|a|] && c == (c + d)[..|c|];
    assert b == (a + b)[|a|..] && d == (c + d)[|c|..];
  }

  lemma ChainOfThree(h: Hashes.Functions, pw: Bytes, salt: Salt)
    ensures Chain(h, pw, salt, 0) == [] && Chain(h, pw, salt, 3) == Key(h, pw, salt) + Iv(h, pw, salt)
  {
    hide Hashes.Digest;
  }

  // ----- padding -----

  function PadLength(n: nat): (p: nat)
    ensures 1 <= p <= 16 && (n + p) % 16 == 0
  {
    16 - n % 16
  }

  function Padded(pt: Bytes): (p: Bytes)
    ensures |p| == |pt| + PadLength(|pt|) && |p| % 16 == 0
  {
    pt + seq(PadLength(|pt|), _ => PadLength(|pt|) as bv8)
  }

  predicate EndsWith(p: Bytes, n: nat, b: bv8) { n <= |p| && forall i | |p| - n <= i < |p| :: p[i] == b }

  // Removes the padding if the last byte counts that many equal bytes.
  function Unpadded(p: Bytes): Bytes
    requires |p| >= 16
  {
    var b := p[|p| - 1];
    if b as nat <= 16 && EndsWith(p, b as nat, b) then p[..|p| - b as nat] else p
  }

  lemma UnpadPadded(pt: Bytes)
    ensures Unpadded(Padded(pt)) == pt
  {
    var v := PadLength(|pt|);
    ByteOfSmall(v);
    var p := Padded(pt);
    assert p[|p| - 1] == v as bv8;
    assert EndsWith(p, v, v as bv8);
    assert p[..|p| - v] == pt;
  }

  // What comes off is what a padding of 1 to 16 bytes would be, and nothing else ever does.
  lemma UnpaddedExactly(p: Bytes, q: Bytes)
    requires |p| >= 16 && q != p
    ensures Unpadded(p) == q <==>
              && q <= p && |p| - |q| <= 16
              && forall i | |q| <= i < |p| :: p[i] as nat == |p| - |q|
  {
    var b := p[|p| - 1];
    if Unpadded(p) == q {
      assert q == p[..|p| - b as nat];
    }
    if q <= p && |p| - |q| <= 16 && forall i | |q| <= i < |p| :: p[i] as nat == |p| - |q| {
      forall i | |q| <= i < |p| ensures p[i] == b {
        ByteAndBack(p[i]);
        ByteAndBack(b);
      }
      assert q == p[..|q|];
    }
  }

  // ----- the envelope -----

  // What the block functions leave in a buffer of zeros.
  ghost function Body(h: Hashes.Functions, d: Direction, mode: int, key: Bytes, salt: Salt, x: Bytes): (r: Bytes)
    requires |key| <= MAX_KEYSIZE && |x| % 16 == 0
    ensures |r| == |x|
  {
    var pw := Password(key, mode);
    if Supported(CipherMode(mode))
    then OutBlocks(KeysOf(MAX_KEYSIZE, Key(h, pw, salt)), d, CipherMode(mode), Iv(h, pw, salt), x, |x| / 16)
    else Zeros(|x|)
  }

  // A header and the padded plaintext.
  function SealedLength(n: nat): (m: nat)
    ensures m >= 32 && m % 16 == 0
  {
    OneBlockMore(n + PadLength(n));
    16 + n + PadLength(n)
  }

  ghost function Sealed(h: Hashes.Functions, mode: int, key: Bytes, salt: Salt, pt: Bytes): (c: Bytes)
    requires |key| <= MAX_KEYSIZE
    ensures |c| == SealedLength(|pt|)
  {
    hide Body, Padded;
    SALTED + salt + Body(h, Encrypting, mode, key, salt, Padded(pt))
  }

  lemma OneBlockMore(n: nat)
    requires n % 16 == 0 && n > 0
    ensures (16 + n) % 16 == 0 && n >= 16
  {
  }

  ghost function Opened(h: Hashes.Functions, mode: int, key: Bytes, c: Bytes): Bytes
    requires |key| <= MAX_KEYSIZE && |c| >= 32 && |c| % 16 == 0
  {
    Unpadded(Body(h, Decrypting, mode, key, c[8..16], c[16..]))
  }

  lemma BodyUndone(h: Hashes.Functions, mode: int, key: Bytes, salt: Salt, p: Bytes)
    requires |key| <= MAX_KEYSIZE && |p| % 16 == 0 && Supported(CipherMode(mode))
    ensures Body(h, Decrypting, mode, key, salt, Body(h, Encrypting, mode, key, salt, p)) == p
  {
    hide Key, Iv, KeysOf, OutBlocks;
    var pw := Password(key, mode);
    DecryptionUndoesEncryption(KeysOf(MAX_KEYSIZE, Key(h, pw, salt)), CipherMode(mode), Iv(h, pw, salt), p);
  }

  // In the other modes nothing but zeros comes out.
  lemma OpenUnsupported(h: Hashes.Functions, mode: int, key: Bytes, salt: Salt, pt: Bytes)
    requires |key| <= MAX_KEYSIZE && !Supported(CipherMode(mode))
    ensures Opened(h, mode, key, Sealed(h, mode, key, salt, pt)) == Zeros(|pt| + PadLength(|pt|))
  {
    hide Padded, Unpadded, Supported, CipherMode, Zeros;
    var c := Sealed(h, mode, key, salt, pt);
    assert c[8..16] == salt && c[16..] == Body(h, Encrypting, mode, key, salt, Padded(pt));
    UnpadZeros(|Padded(pt)|);
  }

  // Opening recovers the plaintext, of any length, in the supported modes and in no other.
  lemma OpenUndoesSeal(h: Hashes.Functions, mode: int, key: Bytes, salt: Salt, pt: Bytes)
    requires |key| <= MAX_KEYSIZE
    ensures Opened(h, mode, key, Sealed(h, mode, key, salt, pt)) == pt <==> Supported(CipherMode(mode))
  {
    hide Padded, Unpadded, Supported, CipherMode;
    var c := Sealed(h, mode, key, salt, pt);
    assert c[8..16] == salt && c[16..] == Body(h, Encrypting, mode, key, salt, Padded(pt));
    if Supported(CipherMode(mode)) {
      hide Body;
      BodyUndone(h, mode, key, salt, Padded(pt));
      UnpadPadded(pt);
    } else {
      OpenUnsupported(h, mode, key, salt, pt);
    }
  }

  // ----- the envelope block by block -----

  // The header, the salt, and the plaintext filled up to whole blocks with bytes that count them.
  lemma SealedLayout(h: Hashes.Functions, mode: int, key: Bytes, salt: Salt, pt: Bytes)
    requires |key| <= MAX_KEYSIZE
    ensures var c, p := Sealed(h, mode, key, salt, pt), Padded(pt);
            && c[..8] == [0x53, 0x61, 0x6c, 0x74, 0x65, 0x64, 0x5f, 0x5f] && c[8..16] == salt && |c| == 16 + |p|
            && pt <= p && 1 <= |p| - |pt| <= 16 && forall i | |pt| <= i < |p| :: p[i] as nat == |p| - |pt|
  {
    hide Body;
    var p := Padded(pt);
    assert Sealed(h, mode, key, salt, pt) == SALTED + salt + Body(h, Encrypting, mode, key, salt, p);
    ByteOfSmall(PadLength(|pt|));
  }

  lemma BodyBlock(h: Hashes.Functions, mode: int, key: Bytes, salt: Salt, p: Bytes, i: nat)
    requires |key| <= MAX_KEYSIZE && |p| % 16 == 0 && 16 * i + 16 <= |p| && Supported(CipherMode(mode))
    ensures var pw := Password(key, mode);
            BlockAt(Body(h, Encrypting, mode, key, salt, p), i)
            == OutBlock(KeysOf(MAX_KEYSIZE, Key(h, pw, salt)), Encrypting, CipherMode(mode), Iv(h, pw, salt), p, i)
  {
    hide Key, Iv, KeysOf, OutBlock, OutBlocks, Password, Supported, CipherMode;
    var pw := Password(key, mode);
    BlockAtOut(KeysOf(MAX_KEYSIZE, Key(h, pw, salt)), Encrypting, CipherMode(mode), Iv(h, pw, salt), p, |p| / 16, i);
  }

  // What every block of the body is, mode by mode (sections 6.1 to 6.5 of NIST SP 800-38A), under
  // the derived key and IV. In any other mode it is zeros.
  lemma SealedBlocks(h: Hashes.Functions, mode: int, key: Bytes, salt: Salt, pt: Bytes, i: nat)
    requires |key| <= MAX_KEYSIZE && 16 * i + 16 <= |Padded(pt)|
    ensures var c, p, pw := Sealed(h, mode, key, salt, pt)[16..], Padded(pt), Password(key, mode);
            var k, iv := KeysOf(32, Key(h, pw, salt)), Iv(h, pw, salt);
            var x, y := p[16 * i..16 * i + 16], c[16 * i..16 * i + 16];
            && (mode == ENC_MODE_ECB ==> y == EncryptBlock(k, x))
            && (mode == ENC_MODE_CBC || mode == ENC_MODE_CBC_LEGACY_IV ==>
                  y == EncryptBlock(k, XorBlock(Before(iv, c, i), x)))
            && (mode == ENC_MODE_CFB ==> y == XorBlock(EncryptBlock(k, Before(iv, c, i)), x))
            && (mode == ENC_MODE_OFB ==>
                  y == XorBlock(EncryptBlock(k, if i == 0 then iv
                                                else XorBlock(Before(iv, c, i), Before(iv, p, i))), x))
            && (mode == ENC_MODE_CTR ==>
                  y == XorBlock(EncryptBlock(k, Counter(iv, i)), x)
                  && Value(Counter(iv, i)) == (Value(iv) + i) % Pow256(16))
            && (mode !in {ENC_MODE_ECB, ENC_MODE_CBC, ENC_MODE_CBC_LEGACY_IV,
                          ENC_MODE_CFB, ENC_MODE_OFB, ENC_MODE_CTR} ==>
                  y == Zeros(16))
  {
    hide Key, Iv, KeysOf, EncryptBlock, XorBlock, Counter, Password, Body, Value, Pow256, OutBlock, Before;
    var p := Padded(pt);
    var body := Body(h, Encrypting, mode, key, salt, p);
    assert Sealed(h, mode, key, salt, pt)[16..] == body;
    if Supported(CipherMode(mode)) {
      var pw := Password(key, mode);
      BodyBlock(h, mode, key, salt, p, i);
      if i > 0 {
        BodyBlock(h, mode, key, salt, p, i - 1);
      }
      ChainedBlock(KeysOf(MAX_KEYSIZE, Key(h, pw, salt)), CipherMode(mode), Iv(h, pw, salt), p, body, i);
      CounterValue(Iv(h, pw, salt), i);
    } else {
      ZeroBody(h, mode, key, salt, p, i);
    }
  }

  lemma ZeroBody(h: Hashes.Functions, mode: int, key: Bytes, salt: Salt, p: Bytes, i: nat)
    requires |key| <= MAX_KEYSIZE && |p| % 16 == 0 && 16 * i + 16 <= |p| && !Supported(CipherMode(mode))
    ensures BlockAt(Body(h, Encrypting, mode, key, salt, p), i) == Zeros(16)
  {
    hide Key, Iv, KeysOf, Password, CipherMode;
  }

  lemma UnpadZeros(n: nat)
    requires n >= 16
    ensures Unpadded(Zeros(n)) == Zeros(n)
  {
  }

  // PCBC writes nothing: the ciphertext does not depend on the plaintext's bytes.
  lemma PcbcIgnoresPlaintext(h: Hashes.Functions, key: Bytes, salt: Salt, p: Bytes, q: Bytes)
    requires |key| <= MAX_KEYSIZE && |p| == |q|
    ensures Sealed(h, ENC_MODE_PCBC, key, salt, p) == Sealed(h, ENC_MODE_PCBC, key, salt, q)
  {
    hide Padded, OutBlocks, KeysOf, Password, Key, Iv, Zeros;
    assert Body(h, Encrypting, ENC_MODE_PCBC, key, salt, Padded(p)) == Zeros(|Padded(p)|);
    assert Body(h, Encrypting, ENC_MODE_PCBC, key, salt, Padded(q)) == Zeros(|Padded(q)|);
  }

  // ----- the code -----

  method Init(h: Hashes.Functions, c: RijndaelContext, key: Bytes, salt: Salt, mode: int) returns (iv: Block)
    requires c.Valid() && |key| <= MAX_KEYSIZE
    modifies c, c.keys, c.ikeys
    ensures c.Ready() && c.View() == KeysOf(MAX_KEYSIZE, Key(h, Password(key, mode), salt))
    ensures iv == Iv(h, Password(key, mode), salt)
  {
    hide Key, Iv, Password;
    var k;
    k, iv := SaltAndIv(h, key, salt, mode);
    c.Setup(MAX_KEYSIZE, k);
  }

  // A buffer of zeros after the block functions.
  lemma ProcessedBody(h: Hashes.Functions, d: Direction, mode: int, key: Bytes, salt: Salt, x: Bytes, n: nat,
                      out: Bytes, was: Bytes)
    requires |key| <= MAX_KEYSIZE && n % 16 == 0 && n <= |x| && n <= |was| && was[..n] == Zeros(n) && |out| == |was|
    requires var pw := Password(key, mode);
             Processed(KeysOf(MAX_KEYSIZE, Key(h, pw, salt)), d, CipherMode(mode), Iv(h, pw, salt), x, n / 16, out, was)
    ensures out[..n] == Body(h, d, mode, key, salt, x[..n])
  {
    hide Key, Iv, KeysOf, OutBlocks, CipherMode, Supported, Password, Zeros;
    if Supported(CipherMode(mode)) {
      var pw := Password(key, mode);
      OutBlocksPrefix(KeysOf(MAX_KEYSIZE, Key(h, pw, salt)), d, CipherMode(mode), Iv(h, pw, salt), x, n / 16);
    }
  }

  method PadInput(input: array<bv8>, inLen: nat)
    requires inLen + PadLength(inLen) <= input.Length
    modifies input
    ensures input[..inLen + PadLength(inLen)] == Padded(old(input[..inLen]))
  {
    var padVal := BLOCKSIZE - inLen % BLOCKSIZE;
    for i := inLen to inLen + padVal
      invariant input[..inLen] == old(input[..inLen])
      invariant forall j | inLen <= j < i :: input[j] == padVal as bv8
    {
      input[i] := padVal as bv8;
    }
    assert input[..inLen + padVal] == input[..inLen] + input[inLen..inLen + padVal];
  }

  // Encrypts a padded input into a buffer of zeros.
  method EncryptBody(h: Hashes.Functions, input: array<bv8>, len: nat, key: Bytes, body: array<bv8>, mode: int,
                     salt: Salt)
    requires input != body && len <= input.Length && len <= body.Length && len % 16 == 0
    requires |key| <= MAX_KEYSIZE && body[..len] == Zeros(len)
    modifies body
    ensures body[..len] == Body(h, Encrypting, mode, key, salt, input[..len])
  {
    hide Key, Iv, Processed, Body, KeysOf, Password, CipherMode, Zeros;
    var c := new RijndaelContext();
    var iv := Init(h, c, key, salt, mode);
    ghost var was := body[..];
    assert was[..len] == body[..len];
    BlockEncrypt(c, CipherMode(mode), input, len, body, iv);
    ProcessedBody(h, Encrypting, mode, key, salt, input[..], len, body[..], was);
    assert input[..][..len] == input[..len] && body[..][..len] == body[..len];
  }

  // The part of the output after the header is worked on as a buffer of its own.
  method Encrypt(h: Hashes.Functions, input: array<bv8>, inLen: nat, key: Bytes, out: array<bv8>, mode: int, salt: Salt)
      returns (n: nat)
    requires input != out && inLen + PadLength(inLen) <= input.Length && inLen + 32 <= out.Length
    requires |key| <= MAX_KEYSIZE && out[..] == Zeros(out.Length)
    modifies input, out
    ensures n == 16 + inLen + PadLength(inLen)
    ensures out[..n] == Sealed(h, mode, key, salt, old(input[..inLen]))
  {
    hide Padded, Body;
    PadInput(input, inLen);
    var len := inLen + PadLength(inLen);
    var body := new bv8[len](_ => 0);
    assert body[..len] == Zeros(len);
    EncryptBody(h, input, len, key, body, mode, salt);
    CopyInto(out, 0, SALTED);
    CopyInto(out, SALT_LEN, salt);
    CopyInto(out, 16, body[..len]);
    n := 16 + len;
    assert out[..n] == SALTED + salt + body[..len];
  }

  // The scan for padding at the end of len bytes reads the last one and, if that is at most a
  // block, as many before the end.
  predicate ScanReads(len: int, last: nat, i: int) { i == len - 1 || (last <= BLOCKSIZE && len - last <= i < len) }

  // It stays inside the buffer, whatever the last byte is, exactly when a block follows the header.
  lemma ScanInside(inLen: nat, len: int)
    requires inLen % 16 == 0 && len == inLen - BLOCKSIZE
    ensures (forall last: nat, i :: ScanReads(len, last, i) ==> 0 <= i < inLen) <==> inLen >= 32
  {
    if inLen < 32 {
      assert inLen == 0 || inLen == 16;
      assert ScanReads(len, 0, len - 1);
    }
  }

  // The end of the plaintext once its padding is off. Without a block of plaintext the scan is of
  // what lies before the buffer.
  method PlaintextEnd(before: Block, out: array<bv8>, len: nat) returns (end: int)
    requires len <= out.Length
    ensures end == |Unpadded(before + out[..len])| - 16
  {
    var mem := before + out[..len];
    var top := |mem|;
    var last := mem[top - 1];
    var padVal := last as nat;
    end := len;
    if padVal <= BLOCKSIZE {
      var padErr := 0;
      for i := 0 to padVal
        invariant padErr == 0 <==> forall j | top - padVal <= j < top - padVal + i :: mem[j] == last
      {
        if mem[top - padVal + i] != last {
          padErr := padErr + 1;
        }
      }
      if padErr == 0 {
        end := len - padVal;
      }
    }
  }

  // What lies before a block or more does not matter.
  lemma UnpadWithin(before: Block, p: Bytes)
    requires |p| >= 16
    ensures Unpadded(before + p) == before + Unpadded(p)
  {
    hide EndsWith;
    var q := before + p;
    var b := p[|p| - 1];
    var v := b as nat;
    assert q[|q| - 1] == b;
    if v <= 16 {
      EndsWithin(before, p, v, b);
      assert q[..|q| - v] == before + p[..|p| - v];
    }
  }

  lemma EndsWithin(before: Block, p: Bytes, n: nat, b: bv8)
    requires n <= |p|
    ensures EndsWith(before + p, n, b) <==> EndsWith(p, n, b)
  {
    var q := before + p;
    assert forall i | 0 <= i < |p| :: q[16 + i] == p[i];
    assert forall i | 16 <= i < |q| :: q[i] == p[i - 16];
  }

  lemma UnpadNoLonger(p: Bytes)
    requires |p| >= 16
    ensures |Unpadded(p)| <= |p|
  {
  }

  // Takes the header off and decrypts the rest.
  method DecryptBody(h: Hashes.Functions, input: array<bv8>, inLen: nat, key: Bytes, out: array<bv8>, mode: int)
    requires input != out && 16 <= inLen <= input.Length && inLen % 16 == 0 && inLen <= out.Length
    requires |key| <= MAX_KEYSIZE && out[..] == Zeros(out.Length)
    modifies input, out
    ensures inLen >= 32 ==>
              out[..inLen - 16] == Body(h, Decrypting, mode, key, old(input[8..16]), old(input[16..inLen]))
  {
    hide Key, Iv, Unpadded, Processed, Body, KeysOf, Password, CipherMode;
    ghost var rest := input[16..inLen];
    var salt: Salt := input[SALT_LEN..2 * SALT_LEN];
    var c := new RijndaelContext();
    var iv := Init(h, c, key, salt, mode);
    var len := inLen - BLOCKSIZE;
    CopyInto(input, 0, input[BLOCKSIZE..inLen]);
    ghost var was := out[..];
    assert was[..len] == Zeros(len);
    // CBC decrypts a first block even when none is left.
    var m := CipherMode(mode);
    if len == 0 && m == MODE_CBC {
      BlockDecrypt(c, m, input, BLOCKSIZE, out, iv);
    } else {
      BlockDecrypt(c, m, input, len, out, iv);
      ProcessedBody(h, Decrypting, mode, key, salt, input[..], len, out[..], was);
      assert input[..][..len] == rest;
    }
  }

  // An envelope of one block has no plaintext, whatever lies before the buffer.
  method Decrypt(h: Hashes.Functions, input: array<bv8>, inLen: nat, key: Bytes, out: array<bv8>, mode: int,
                 before: Block)
      returns (n: int)
    requires input != out && 16 <= inLen <= input.Length && inLen % 16 == 0 && inLen <= out.Length
    requires |key| <= MAX_KEYSIZE && out[..] == Zeros(out.Length)
    modifies input, out
    ensures inLen == 16 ==> n <= 0
    ensures inLen >= 32 ==>
              0 <= n <= inLen - 16 && out[..n] == Opened(h, mode, key, old(input[..inLen])) && out[n] == 0
  {
    hide Unpadded, Body;
    ghost var cipher := input[..inLen];
    assert cipher[8..16] == input[8..16] && cipher[16..] == input[16..inLen];
    DecryptBody(h, input, inLen, key, out, mode);
    var len := inLen - BLOCKSIZE;
    n := PlaintextEnd(before, out, len);
    UnpadNoLonger(before + out[..len]);
    if len > 0 {
      UnpadWithin(before, out[..len]);
      UnpadPrefix(out[..len]);
    }
    if n >= 0 {
      ghost var pt := out[..n];
      out[n] := 0;
      assert out[..n] == pt;
    }
  }

  lemma UnpadPrefix(p: Bytes)
    requires |p| >= 16
    ensures Unpadded(p) <= p
  {
  }
}
