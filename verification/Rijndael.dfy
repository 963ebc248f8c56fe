/**
 The table-driven cipher of lib/rijndael.c on packed 32-bit words, proved to
 compute the FIPS 197 key expansion, cipher and equivalent inverse cipher.
 */
module Rijndael {
  import opened RijndaelTables
  import opened Gf256
  import opened Fips197

  const BLOCKSIZE: nat := 16
  const MAX_KEYSIZE: nat := 32

  // ----- packed words: byte i sits at bits 8i to 8i+7 -----

  function Byte0(x: bv32): bv8 { (x & 0xff) as bv8 }
  function Byte1(x: bv32): bv8 { ((x >> 8) & 0xff) as bv8 }
  function Byte2(x: bv32): bv8 { ((x >> 16) & 0xff) as bv8 }
  function Byte3(x: bv32): bv8 { ((x >> 24) & 0xff) as bv8 }

  function Pack(a: bv8, b: bv8, c: bv8, d: bv8): bv32 {
    (a as bv32) | ((b as bv32) << 8) | ((c as bv32) << 16) | ((d as bv32) << 24)
  }

  function Unpack(x: bv32): Word { Word(Byte0(x), Byte1(x), Byte2(x), Byte3(x)) }

  function Xor32(x: bv32, y: bv32): bv32 { x ^ y }
  function RotByte(x: bv32): bv32 { (x >> 8) | ((x & 0xff) << 24) }
  function RotRByte(x: bv32): bv32 { (x << 8) | ((x >> 24) & 0xff) }

  lemma UnpackPack(a: bv8, b: bv8, c: bv8, d: bv8)
    ensures Unpack(Pack(a, b, c, d)) == Word(a, b, c, d)
  {
  }

  lemma UnpackXor(x: bv32, y: bv32)
    ensures Unpack(Xor32(x, y)) == AddWord(Unpack(x), Unpack(y))
  {
  }

  lemma UnpackRotR(x: bv32)
    ensures Unpack(RotRByte(x)) == RotateUp(Unpack(x))
  {
  }

  lemma UnpackRot(x: bv32)
    ensures Unpack(RotByte(x)) == RotWord(Unpack(x))
  {
  }

  // ----- the round tables -----

  lemma DtblBytes(x: bv8)
    ensures var s := Sbox(x); Dtbl(x) == Pack(Xtime(s), s, s, Add(s, Xtime(s)))
  {
  }

  lemma ItblBytes(x: bv8)
    ensures var s := Isbox(x); var s2 := Xtime(s); var s4 := Xtime(s2); var s8 := Xtime(s4);
            Itbl(x) == Pack(Add(s2, Add(s4, s8)), Add(s, s8), Add(s, Add(s4, s8)), Add(s, Add(s2, s8)))
  {
  }

  lemma DtblIsMixedSbox(x: bv8)
    ensures Unpack(Dtbl(x)) == Column0(MIX, Sbox(x))
  {
    hide Dtbl, Sbox, Pack, Unpack, Product, Xtime, Add;
    var s := Sbox(x);
    DtblBytes(x);
    Coefficients(s);
    UnpackPack(Xtime(s), s, s, Add(s, Xtime(s)));
  }

  lemma ItblIsUnmixedIsbox(x: bv8)
    ensures Unpack(Itbl(x)) == Column0(UNMIX, Isbox(x))
  {
    hide Itbl, Isbox, Pack, Unpack, Product, Xtime, Add;
    var s := Isbox(x); var s2 := Xtime(s); var s4 := Xtime(s2); var s8 := Xtime(s4);
    ItblBytes(x);
    Coefficients(s);
    UnpackPack(Add(s2, Add(s4, s8)), Add(s, s8), Add(s, Add(s4, s8)), Add(s, Add(s2, s8)));
  }

  // One column of a round by four lookups and three rotations.
  function TableColumn(t0: bv32, t1: bv32, t2: bv32, t3: bv32): bv32 {
    Xor32(t0, RotRByte(Xor32(t1, RotRByte(Xor32(t2, RotRByte(t3))))))
  }

  lemma TableColumnSum(t0: bv32, t1: bv32, t2: bv32, t3: bv32)
    ensures Unpack(TableColumn(t0, t1, t2, t3))
         == AddWord(AddWord(Unpack(t0), RotateUp(Unpack(t1))),
                    AddWord(RotateUp(RotateUp(Unpack(t2))), RotateUp(RotateUp(RotateUp(Unpack(t3))))))
  {
    hide Xor32, RotRByte, Unpack, AddWord;
    var u3 := RotRByte(t3); var u2 := RotRByte(Xor32(t2, u3)); var u1 := RotRByte(Xor32(t1, u2));
    UnpackRotR(t3);
    UnpackXor(t2, u3); UnpackRotR(Xor32(t2, u3));
    UnpackXor(t1, u2); UnpackRotR(Xor32(t1, u2));
    UnpackXor(t0, u1);
    RotateSum(Unpack(t0), Unpack(t1), Unpack(t2), Unpack(t3));
  }

  lemma RotateSum(a: Word, b: Word, c: Word, d: Word)
    ensures AddWord(a, RotateUp(AddWord(b, RotateUp(AddWord(c, RotateUp(d))))))
         == AddWord(AddWord(a, RotateUp(b)), AddWord(RotateUp(RotateUp(c)), RotateUp(RotateUp(RotateUp(d)))))
  {
    hide Add;
    AddLaws(a.b0, b.b3, Add(c.b2, d.b1));
    AddLaws(a.b1, b.b0, Add(c.b3, d.b2));
    AddLaws(a.b2, b.b1, Add(c.b0, d.b3));
    AddLaws(a.b3, b.b2, Add(c.b1, d.b0));
  }

  // ----- the packed state against the columns of FIPS 197 -----

  type Words = w: seq<bv32> | |w| == 4 witness [0, 0, 0, 0]

  function Columns(w: seq<bv32>): (s: seq<Word>)
    ensures |s| == |w|
    ensures forall i | 0 <= i < |w| :: s[i] == Unpack(w[i])
  {
    seq(|w|, i requires 0 <= i < |w| => Unpack(w[i]))
  }

  // Column j of an inner encryption round before the key is added.
  function EncryptColumn(w: Words, j: nat): bv32
    requires j < 4
  {
    TableColumn(Dtbl(Byte0(w[j])), Dtbl(Byte1(w[(j + 1) % 4])),
                Dtbl(Byte2(w[(j + 2) % 4])), Dtbl(Byte3(w[(j + 3) % 4])))
  }

  // Column j of an inner decryption round before the key is added.
  function DecryptColumn(w: Words, j: nat): bv32
    requires j < 4
  {
    TableColumn(Itbl(Byte0(w[j])), Itbl(Byte1(w[(j + 3) % 4])),
                Itbl(Byte2(w[(j + 2) % 4])), Itbl(Byte3(w[(j + 1) % 4])))
  }

  lemma ShiftedSub(w: Words, j: nat)
    requires j < 4
    ensures ShiftedColumn(SubBytes(Columns(w)), j)
         == Word(Sbox(Byte0(w[j])), Sbox(Byte1(w[(j + 1) % 4])),
                 Sbox(Byte2(w[(j + 2) % 4])), Sbox(Byte3(w[(j + 3) % 4])))
  {
    hide Sbox, Byte0, Byte1, Byte2, Byte3, SubBytes, Columns;
    SubAt(w, 0);
    SubAt(w, 1);
    SubAt(w, 2);
    SubAt(w, 3);
    if j == 0 {
    } else if j == 1 {
    } else if j == 2 {
    }
  }

  lemma SubAt(w: Words, i: nat)
    requires i < 4
    ensures SubBytes(Columns(w))[i] == SubWord(Unpack(w[i]))
    ensures InvSubBytes(Columns(w))[i] == InvSubWord(Unpack(w[i]))
  {
    hide SubWord, InvSubWord, Unpack;
    if i == 0 {
    } else if i == 1 {
    } else if i == 2 {
    }
  }

  lemma UnshiftedSub(w: Words, j: nat)
    requires j < 4
    ensures UnshiftedColumn(InvSubBytes(Columns(w)), j)
         == Word(Isbox(Byte0(w[j])), Isbox(Byte1(w[(j + 3) % 4])),
                 Isbox(Byte2(w[(j + 2) % 4])), Isbox(Byte3(w[(j + 1) % 4])))
  {
    hide Isbox, Byte0, Byte1, Byte2, Byte3, InvSubBytes, Columns;
    SubAt(w, 0);
    SubAt(w, 1);
    SubAt(w, 2);
    SubAt(w, 3);
    if j == 0 {
    } else if j == 1 {
    } else if j == 2 {
    }
  }

  lemma EncryptColumnMixes(w: Words, j: nat)
    requires j < 4
    ensures Unpack(EncryptColumn(w, j)) == MixColumn(ShiftedColumn(SubBytes(Columns(w)), j))
  {
    hide Dtbl, Sbox, Unpack, Byte0, Byte1, Byte2, Byte3, TableColumn, Circulant, Column0, AddWord, RotateUp;
    hide ShiftedColumn;
    var x0, x1, x2, x3 := Byte0(w[j]), Byte1(w[(j + 1) % 4]), Byte2(w[(j + 2) % 4]), Byte3(w[(j + 3) % 4]);
    TableColumnSum(Dtbl(x0), Dtbl(x1), Dtbl(x2), Dtbl(x3));
    DtblIsMixedSbox(x0);
    DtblIsMixedSbox(x1);
    DtblIsMixedSbox(x2);
    DtblIsMixedSbox(x3);
    ShiftedSub(w, j);
    CirculantSplit(MIX, Word(Sbox(x0), Sbox(x1), Sbox(x2), Sbox(x3)));
  }

  lemma DecryptColumnUnmixes(w: Words, j: nat)
    requires j < 4
    ensures Unpack(DecryptColumn(w, j)) == InvMixColumn(UnshiftedColumn(InvSubBytes(Columns(w)), j))
  {
    hide Itbl, Isbox, Unpack, Byte0, Byte1, Byte2, Byte3, TableColumn, Circulant, Column0, AddWord, RotateUp;
    hide UnshiftedColumn;
    var x0, x1, x2, x3 := Byte0(w[j]), Byte1(w[(j + 3) % 4]), Byte2(w[(j + 2) % 4]), Byte3(w[(j + 1) % 4]);
    TableColumnSum(Itbl(x0), Itbl(x1), Itbl(x2), Itbl(x3));
    ItblIsUnmixedIsbox(x0);
    ItblIsUnmixedIsbox(x1);
    ItblIsUnmixedIsbox(x2);
    ItblIsUnmixedIsbox(x3);
    UnshiftedSub(w, j);
    CirculantSplit(UNMIX, Word(Isbox(x0), Isbox(x1), Isbox(x2), Isbox(x3)));
  }

  // ----- the key schedule -----

  function SubByteWord(x: bv32): bv32 { Pack(Sbox(Byte0(x)), Sbox(Byte1(x)), Sbox(Byte2(x)), Sbox(Byte3(x))) }
  function InvSubByteWord(x: bv32): bv32 { Pack(Isbox(Byte0(x)), Isbox(Byte1(x)), Isbox(Byte2(x)), Isbox(Byte3(x))) }

  lemma UnpackSub(x: bv32)
    ensures Unpack(SubByteWord(x)) == SubWord(Unpack(x))
    ensures Unpack(InvSubByteWord(x)) == InvSubWord(Unpack(x))
  {
    hide Pack, Byte0, Byte1, Byte2, Byte3, Sbox, Isbox;
    UnpackPack(Sbox(Byte0(x)), Sbox(Byte1(x)), Sbox(Byte2(x)), Sbox(Byte3(x)));
    UnpackPack(Isbox(Byte0(x)), Isbox(Byte1(x)), Isbox(Byte2(x)), Isbox(Byte3(x)));
  }

  // Byte i of word a with its column unmixed; a, b, c and d are the word's bytes i, i+1, i+2 and i+3.
  function UnmixByte(a: bv8, b: bv8, c: bv8, d: bv8): bv8 {
    Add(Add(Add(Mul(0xe, a), Mul(0xb, b)), Mul(0xd, c)), Mul(0x9, d))
  }

  function UnmixWord(x: bv32): bv32 {
    Pack(UnmixByte(Byte0(x), Byte1(x), Byte2(x), Byte3(x)), UnmixByte(Byte1(x), Byte2(x), Byte3(x), Byte0(x)),
         UnmixByte(Byte2(x), Byte3(x), Byte0(x), Byte1(x)), UnmixByte(Byte3(x), Byte0(x), Byte1(x), Byte2(x)))
  }

  lemma UnmixByteIsDot(w: Word)
    ensures UnmixByte(w.b0, w.b1, w.b2, w.b3) == Dot(UNMIX, w)
  {
    hide Add, Mul, Product;
    MulIsProduct(0xe, w.b0);
    MulIsProduct(0xb, w.b1);
    MulIsProduct(0xd, w.b2);
    MulIsProduct(0x9, w.b3);
    AddLaws(Add(Mul(0xe, w.b0), Mul(0xb, w.b1)), Mul(0xd, w.b2), Mul(0x9, w.b3));
  }

  lemma UnpackUnmix(x: bv32)
    ensures Unpack(UnmixWord(x)) == InvMixColumn(Unpack(x))
  {
    hide Pack, Byte0, Byte1, Byte2, Byte3, UnmixByte, Dot;
    var w := Unpack(x);
    var w1 := RotWord(w); var w2 := RotWord(w1); var w3 := RotWord(w2);
    var k1 := RotateUp(UNMIX); var k2 := RotateUp(k1);
    UnpackPack(UnmixByte(w.b0, w.b1, w.b2, w.b3), UnmixByte(w1.b0, w1.b1, w1.b2, w1.b3),
               UnmixByte(w2.b0, w2.b1, w2.b2, w2.b3), UnmixByte(w3.b0, w3.b1, w3.b2, w3.b3));
    UnmixByteIsDot(w);
    UnmixByteIsDot(w1);
    UnmixByteIsDot(w2);
    UnmixByteIsDot(w3);
    DotRotate(UNMIX, w1);
    DotRotate(UNMIX, w2); DotRotate(k1, w1);
    DotRotate(UNMIX, w3); DotRotate(k1, w2); DotRotate(k2, w1);
  }

  lemma ExpandStep(key: seq<bv8>, nk: nat, i: nat, prev: bv32, back: bv32, rcon: bv32, word: bv32)
    requires 4 <= nk <= i && 4 * nk <= |key|
    requires Unpack(prev) == KeyWord(key, nk, i - 1) && Unpack(back) == KeyWord(key, nk, i - nk)
    requires i % nk == 0 ==> rcon == Pack(Rcon(i / nk), 0, 0, 0)
    requires word == Xor32(back, if i % nk == 0 then Xor32(SubByteWord(RotByte(prev)), rcon)
                                 else if nk > 6 && i % nk == 4 then SubByteWord(prev)
                                 else prev)
    ensures Unpack(word) == KeyWord(key, nk, i)
  {
    hide Unpack, Pack, Xor32, RotByte, SubByteWord, AddWord, SubWord, RotWord, Rcon;
    if i % nk == 0 {
      UnpackRot(prev);
      UnpackSub(RotByte(prev));
      UnpackPack(Rcon(i / nk), 0, 0, 0);
      UnpackXor(SubByteWord(RotByte(prev)), rcon);
      UnpackXor(back, Xor32(SubByteWord(RotByte(prev)), rcon));
    } else if nk > 6 && i % nk == 4 {
      UnpackSub(prev);
      UnpackXor(back, SubByteWord(prev));
    } else {
      UnpackXor(back, prev);
    }
  }

  // Rounded-up quotients: the round constant in force at word i is the one of the next multiple of nk.
  lemma CeilingStep(i: nat, nk: nat)
    requires nk == 4 || nk == 6 || nk == 8
    ensures i % nk == 0 ==> (i + nk - 1) / nk == i / nk && (i + nk) / nk == i / nk + 1
    ensures i % nk != 0 ==> (i + nk) / nk == (i + nk - 1) / nk
  {
    if nk == 4 {
    } else if nk == 6 {
    } else {
    }
  }

  lemma RconStep(m: nat, rcon: bv32)
    requires m > 0 && rcon == Pack(Rcon(m), 0, 0, 0)
    ensures Pack(Xtime(Byte0(rcon)), 0, 0, 0) == Pack(Rcon(m + 1), 0, 0, 0)
  {
    hide Pack, Byte0, Xtime;
    UnpackPack(Rcon(m), 0, 0, 0);
  }

  // ----- blocks of sixteen bytes -----

  type Block = b: seq<bv8> | |b| == 16 witness [0, 0, 0, 0, 0, 0, 0, 0, 0, 0, 0, 0, 0, 0, 0, 0]

  function ToState(b: Block): (s: State)
    ensures forall j | 0 <= j < 4 :: s[j] == Word(b[4 * j], b[4 * j + 1], b[4 * j + 2], b[4 * j + 3])
  {
    seq(4, j requires 0 <= j < 4 => Word(b[4 * j], b[4 * j + 1], b[4 * j + 2], b[4 * j + 3]))
  }

  function ByteOf(w: Word, i: nat): bv8 {
    if i == 0 then w.b0 else if i == 1 then w.b1 else if i == 2 then w.b2 else w.b3
  }

  function FromState(s: State): (b: Block)
    ensures forall j | 0 <= j < 4 :: Word(b[4 * j], b[4 * j + 1], b[4 * j + 2], b[4 * j + 3]) == s[j]
  {
    seq(16, n requires 0 <= n < 16 => ByteOf(s[n / 4], n % 4))
  }

  lemma SameColumns(b: Block, c: Block)
    requires forall j | 0 <= j < 4 :: Word(b[4 * j], b[4 * j + 1], b[4 * j + 2], b[4 * j + 3])
                                   == Word(c[4 * j], c[4 * j + 1], c[4 * j + 2], c[4 * j + 3])
    ensures b == c
  {
    forall n | 0 <= n < 16 ensures b[n] == c[n] {
      var j := n / 4;
      assert Word(b[4 * j], b[4 * j + 1], b[4 * j + 2], b[4 * j + 3])
          == Word(c[4 * j], c[4 * j + 1], c[4 * j + 2], c[4 * j + 3]);
    }
  }

  lemma StateRoundTrip(s: State)
    ensures ToState(FromState(s)) == s
  {
    hide FromState;
  }

  lemma BlockRoundTrip(b: Block)
    ensures FromState(ToState(b)) == b
  {
    hide FromState;
    SameColumns(FromState(ToState(b)), b);
  }

  // The schedules of one key, as Setup leaves them.
  datatype Keys = Keys(w: seq<Word>, dw: seq<Word>, nr: nat) {
    ghost predicate Valid() { IsInverseSchedule(dw, w, nr) }
  }

  ghost function EncryptBlock(k: Keys, b: Block): Block
    requires k.Valid()
  {
    FromState(Cipher(ToState(b), k.w, k.nr))
  }

  ghost function DecryptBlock(k: Keys, b: Block): Block
    requires k.Valid()
  {
    FromState(EqInvCipher(ToState(b), k.dw, k.nr))
  }

  // The schedules of a key of the given size.
  ghost function KeysOf(keysize: nat, key: seq<bv8>): (k: Keys)
    requires 16 <= keysize <= |key|
    ensures k.Valid()
  {
    hide KeyWord, InvMixColumn;
    var nk := KeyWords(keysize);
    var w := KeyExpansion(key, nk);
    Keys(w, InverseSchedule(w, nk + 6), nk + 6)
  }

  // For every key schedule and every block, decryption undoes encryption.
  lemma DecryptUndoesEncrypt(k: Keys, b: Block)
    requires k.Valid()
    ensures DecryptBlock(k, EncryptBlock(k, b)) == b
  {
    hide ToState, FromState, Cipher, EqInvCipher;
    StateRoundTrip(Cipher(ToState(b), k.w, k.nr));
    EqInvCipherUndoesCipher(ToState(b), k.dw, k.w, k.nr);
    BlockRoundTrip(b);
  }

  // ----- the steps on packed words -----

  // Byte i of the i-th argument, as the last rounds select it.
  function Gather(a: bv32, b: bv32, c: bv32, d: bv32): bv32 {
    (a & 0xff) | (b & 0xff00) | (c & 0xff_0000) | (d & 0xff00_0000)
  }

  lemma GatherBytes(a: bv32, b: bv32, c: bv32, d: bv32)
    ensures Unpack(Gather(a, b, c, d)) == Word(Byte0(a), Byte1(b), Byte2(c), Byte3(d))
  {
  }

  // Column j of the last encryption and of the last decryption round before the key is added.
  function LastEncryptColumn(w: Words, j: nat): bv32
    requires j < 4
  {
    SubByteWord(Gather(w[j], w[(j + 1) % 4], w[(j + 2) % 4], w[(j + 3) % 4]))
  }

  function LastDecryptColumn(w: Words, j: nat): bv32
    requires j < 4
  {
    InvSubByteWord(Gather(w[j], w[(j + 3) % 4], w[(j + 2) % 4], w[(j + 1) % 4]))
  }

  lemma LastEncryptShifts(w: Words, j: nat)
    requires j < 4
    ensures Unpack(LastEncryptColumn(w, j)) == ShiftedColumn(SubBytes(Columns(w)), j)
  {
    hide Sbox, SubByteWord, Unpack, Gather, Byte0, Byte1, Byte2, Byte3, ShiftedColumn, Columns, SubBytes;
    UnpackSub(Gather(w[j], w[(j + 1) % 4], w[(j + 2) % 4], w[(j + 3) % 4]));
    GatherBytes(w[j], w[(j + 1) % 4], w[(j + 2) % 4], w[(j + 3) % 4]);
    ShiftedSub(w, j);
  }

  lemma LastDecryptUnshifts(w: Words, j: nat)
    requires j < 4
    ensures Unpack(LastDecryptColumn(w, j)) == UnshiftedColumn(InvSubBytes(Columns(w)), j)
  {
    hide Isbox, InvSubByteWord, Unpack, Gather, Byte0, Byte1, Byte2, Byte3, UnshiftedColumn, Columns, InvSubBytes;
    UnpackSub(Gather(w[j], w[(j + 3) % 4], w[(j + 2) % 4], w[(j + 1) % 4]));
    GatherBytes(w[j], w[(j + 3) % 4], w[(j + 2) % 4], w[(j + 1) % 4]);
    UnshiftedSub(w, j);
  }

  lemma AddedColumns(out: Words, txt: State, key: Words)
    requires forall n | 0 <= n < 4 :: Unpack(out[n]) == AddWord(txt[n], Unpack(key[n]))
    ensures Columns(out) == AddRoundKey(txt, Columns(key))
  {
    hide Unpack, AddWord;
  }

  // The block at `at`, packed and added to four key words.
  method KeyAddition8To32(txt: array<bv8>, at: nat, keys: array<bv32>, k: nat, out: array<bv32>)
    requires at + 16 <= txt.Length && k + 4 <= keys.Length && out.Length == 4 && out != keys
    modifies out
    ensures Columns(out[..]) == AddRoundKey(ToState(txt[at..at + 16]), Columns(keys[k..k + 4]))
  {
    hide Pack, Unpack, Xor32, AddWord, AddRoundKey, Columns;
    ghost var s := ToState(txt[at..at + 16]);
    for i := 0 to 4
      invariant forall n | 0 <= n < i :: Unpack(out[n]) == AddWord(s[n], Unpack(keys[k + n]))
    {
      var val := Pack(txt[at + 4 * i], txt[at + 4 * i + 1], txt[at + 4 * i + 2], txt[at + 4 * i + 3]);
      UnpackPack(txt[at + 4 * i], txt[at + 4 * i + 1], txt[at + 4 * i + 2], txt[at + 4 * i + 3]);
      UnpackXor(val, keys[k + i]);
      out[i] := Xor32(val, keys[k + i]);
    }
    AddedColumns(out[..], s, keys[k..k + 4]);
  }

  method KeyAddition32(txt: array<bv32>, keys: array<bv32>, k: nat, out: array<bv32>)
    requires txt.Length == 4 && k + 4 <= keys.Length && out.Length == 4 && out != keys && out != txt
    modifies out
    ensures Columns(out[..]) == AddRoundKey(Columns(txt[..]), Columns(keys[k..k + 4]))
  {
    hide Unpack, Xor32, AddWord, AddRoundKey;
    for i := 0 to 4
      invariant forall n | 0 <= n < i :: Unpack(out[n]) == AddWord(Unpack(txt[n]), Unpack(keys[k + n]))
    {
      UnpackXor(txt[i], keys[k + i]);
      out[i] := Xor32(txt[i], keys[k + i]);
    }
    AddedColumns(out[..], Columns(txt[..]), keys[k..k + 4]);
  }

  method WriteWord(val: bv32, out: array<bv8>, to: nat)
    requires to + 4 <= out.Length
    modifies out
    ensures forall m | 0 <= m < out.Length ::
              out[m] == if to <= m < to + 4 then ByteOf(Unpack(val), m - to) else old(out[m])
  {
    hide Byte0, Byte1, Byte2, Byte3;
    out[to] := Byte0(val);
    out[to + 1] := Byte1(val);
    out[to + 2] := Byte2(val);
    out[to + 3] := Byte3(val);
  }

  // The buffer `out` is `was` with block b at `to`.
  ghost predicate BlockPut(out: seq<bv8>, was: seq<bv8>, to: nat, b: Block) {
    && to + 16 <= |out| == |was|
    && out[to..to + 16] == b
    && out[..to] == was[..to]
    && out[to + 16..] == was[to + 16..]
  }

  lemma StateBytesPut(out: seq<bv8>, was: seq<bv8>, to: nat, s: State)
    requires to + 16 <= |out| == |was|
    requires forall m | 0 <= m < |out| ::
               out[m] == if to <= m < to + 16 then ByteOf(s[(m - to) / 4], (m - to) % 4) else was[m]
    ensures BlockPut(out, was, to, FromState(s))
  {
    hide ByteOf;
    forall n | 0 <= n < 16 ensures out[to + n] == FromState(s)[n] {
      assert (to + n - to) / 4 == n / 4;
    }
  }

  lemma AddedColumn(txt: Words, key: Words, n: nat)
    requires n < 4
    ensures AddRoundKey(Columns(txt), Columns(key))[n] == Unpack(Xor32(txt[n], key[n]))
  {
    hide Unpack, Xor32, AddWord;
    UnpackXor(txt[n], key[n]);
  }

  // Four words added to four key words and written out as bytes.
  method KeyAddition32To8(txt: array<bv32>, keys: array<bv32>, k: nat, out: array<bv8>, to: nat)
    requires txt.Length == 4 && k + 4 <= keys.Length && to + 16 <= out.Length
    modifies out
    ensures BlockPut(out[..], old(out[..]), to, FromState(AddRoundKey(Columns(txt[..]), Columns(keys[k..k + 4]))))
  {
    hide Unpack, Xor32, AddRoundKey, ByteOf, BlockPut, Columns, FromState;
    ghost var s := AddRoundKey(Columns(txt[..]), Columns(keys[k..k + 4]));
    for i := 0 to 4
      invariant forall m | 0 <= m < out.Length ::
        out[m] == if to <= m < to + 4 * i then ByteOf(s[(m - to) / 4], (m - to) % 4) else old(out[m])
    {
      AddedColumn(txt[..], keys[k..k + 4], i);
      WriteWord(Xor32(txt[i], keys[k + i]), out, to + 4 * i);
    }
    StateBytesPut(out[..], old(out[..]), to, s);
  }

  lemma RoundKeyColumns(keys: seq<bv32>, n: nat, r: nat)
    requires 4 * r + 4 <= n <= |keys|
    ensures Columns(keys[4 * r..4 * r + 4]) == RoundKey(Columns(keys[..n]), r)
  {
    hide Unpack;
  }

  lemma InverseColumns(keys: seq<bv32>, ikeys: seq<bv32>, nr: nat)
    requires nr > 0 && |keys| == |ikeys| == 4 * (nr + 1)
    requires forall k | 0 <= k < 4 || 4 * nr <= k < 4 * nr + 4 :: ikeys[k] == keys[k]
    requires forall k | 4 <= k < 4 * nr :: ikeys[k] == UnmixWord(keys[k])
    ensures IsInverseSchedule(Columns(ikeys), Columns(keys), nr)
  {
    hide Unpack, UnmixWord, InvMixColumn;
    forall k | 4 <= k < 4 * nr ensures Unpack(ikeys[k]) == InvMixColumn(Unpack(keys[k])) {
      UnpackUnmix(keys[k]);
    }
  }

  class RijndaelContext {
    const keys: array<bv32>
    const ikeys: array<bv32>
    var nrounds: nat

    constructor ()
      ensures Valid() && fresh(keys) && fresh(ikeys)
    {
      keys := new bv32[60];
      ikeys := new bv32[60];
      nrounds := 0;
    }

    ghost predicate Valid() {
      keys.Length == 60 && ikeys.Length == 60 && keys != ikeys
    }

    // The schedule in `keys` and `ikeys` after Setup.
    ghost predicate Ready()
      reads this, keys, ikeys
    {
      && Valid()
      && 0 < nrounds <= 14
      && IsInverseSchedule(Columns(ikeys[..4 * (nrounds + 1)]), Schedule(), nrounds)
    }

    ghost function Schedule(): seq<Word>
      requires Valid() && nrounds <= 14
      reads this, keys
    {
      Columns(keys[..4 * (nrounds + 1)])
    }

    // Words 0 to nk-1 are the key itself.
    method LoadKey(nk: nat, key: seq<bv8>)
      requires Valid() && 4 <= nk <= 8 && 4 * nk <= |key|
      modifies keys
      ensures forall k | 0 <= k < nk :: Unpack(keys[k]) == KeyWord(key, nk, k)
    {
      hide Pack, Unpack;
      for i := 0 to nk
        invariant forall k | 0 <= k < i :: Unpack(keys[k]) == KeyWord(key, nk, k)
      {
        keys[i] := Pack(key[i * 4], key[i * 4 + 1], key[i * 4 + 2], key[i * 4 + 3]);
        UnpackPack(key[i * 4], key[i * 4 + 1], key[i * 4 + 2], key[i * 4 + 3]);
      }
    }

    method ExpandKey(nk: nat, key: seq<bv8>, lastkey: nat)
      requires Valid() && (nk == 4 || nk == 6 || nk == 8) && 4 * nk <= |key| && nk <= lastkey <= 60
      requires forall k | 0 <= k < nk :: Unpack(keys[k]) == KeyWord(key, nk, k)
      modifies keys
      ensures forall k | 0 <= k < lastkey :: Unpack(keys[k]) == KeyWord(key, nk, k)
    {
      hide Pack, Unpack, KeyWord, Xor32, RotByte, SubByteWord, Rcon, Xtime, Byte0;
      var rcon: bv32 := Pack(1, 0, 0, 0);
      RconOne();
      CeilingStep(nk - 1, nk);
      for i := nk to lastkey
        invariant (i + nk - 1) / nk > 0 && rcon == Pack(Rcon((i + nk - 1) / nk), 0, 0, 0)
        invariant forall k | 0 <= k < i :: Unpack(keys[k]) == KeyWord(key, nk, k)
      {
        CeilingStep(i, nk);
        ghost var before := rcon;
        var temp := keys[i - 1];
        if i % nk == 0 {
          temp := Xor32(SubByteWord(RotByte(temp)), rcon);
          RconStep(i / nk, rcon);
          rcon := Pack(Xtime(Byte0(rcon)), 0, 0, 0);
        } else if nk > 6 && i % nk == 4 {
          temp := SubByteWord(temp);
        }
        ExpandStep(key, nk, i, keys[i - 1], keys[i - nk], before, Xor32(keys[i - nk], temp));
        keys[i] := Xor32(keys[i - nk], temp);
      }
    }

    // One round key unmixed.
    method InvMixColumn4(i: nat)
      requires Valid() && i + 4 <= 60
      modifies ikeys
      ensures forall k | 0 <= k < 60 :: ikeys[k] == if i <= k < i + 4 then UnmixWord(keys[k]) else old(ikeys[k])
    {
      hide UnmixWord;
      for j := 0 to 4
        invariant forall k | 0 <= k < 60 :: ikeys[k] == if i <= k < i + j then UnmixWord(keys[k]) else old(ikeys[k])
      {
        ikeys[i + j] := UnmixWord(keys[i + j]);
      }
    }

    // The inverse keys: the first and last round keys unchanged, the others unmixed.
    method InvertKeys(lastkey: nat)
      requires Valid() && 8 <= lastkey <= 60 && lastkey % 4 == 0
      modifies ikeys
      ensures forall k | 0 <= k < 4 || lastkey - 4 <= k < lastkey :: ikeys[k] == keys[k]
      ensures forall k | 4 <= k < lastkey - 4 :: ikeys[k] == UnmixWord(keys[k])
    {
      hide UnmixWord;
      for i := 0 to 4
        invariant forall k | 0 <= k < i || lastkey - 4 <= k < lastkey - 4 + i :: ikeys[k] == keys[k]
      {
        ikeys[i] := keys[i];
        ikeys[lastkey - 4 + i] := keys[lastkey - 4 + i];
      }
      var i := 4;
      while i < lastkey - 4
        invariant 4 <= i <= lastkey - 4 && i % 4 == 0
        invariant forall k | 0 <= k < 4 || lastkey - 4 <= k < lastkey :: ikeys[k] == keys[k]
        invariant forall k | 4 <= k < i :: ikeys[k] == UnmixWord(keys[k])
      {
        InvMixColumn4(i);
        i := i + 4;
      }
    }

    // Key sizes are truncated to 32, 24 or 16 bytes.
    method Setup(keysize: nat, key: seq<bv8>)
      requires Valid() && 16 <= keysize <= |key|
      modifies this, keys, ikeys
      ensures Ready()
      ensures nrounds == KeyWords(keysize) + 6
      ensures Schedule() == KeyExpansion(key, KeyWords(keysize))
      ensures View() == KeysOf(keysize, key)
    {
      hide Unpack, KeyWord, UnmixWord, InvMixColumn;
      var nk, nr;
      if keysize >= MAX_KEYSIZE {
        nk, nr := 8, 14;
      } else if keysize >= 24 {
        nk, nr := 6, 12;
      } else {
        nk, nr := 4, 10;
      }
      var lastkey := (BLOCKSIZE / 4) * (nr + 1);
      nrounds := nr;
      LoadKey(nk, key);
      ExpandKey(nk, key, lastkey);
      InvertKeys(lastkey);
      InverseColumns(keys[..lastkey], ikeys[..lastkey], nr);
      assert Schedule() == KeyExpansion(key, nk);
      InverseScheduleUnique(Columns(ikeys[..lastkey]), Schedule(), nr);
    }

    ghost function View(): Keys
      requires Ready()
      reads this, keys, ikeys
    {
      Keys(Schedule(), Columns(ikeys[..4 * (nrounds + 1)]), nrounds)
    }

    // The t words of one inner encryption round.
    method EncryptRound(wtxt: array<bv32>, t: array<bv32>)
      requires wtxt.Length == 4 && t.Length == 4 && t != wtxt
      modifies t
      ensures Columns(t[..]) == MixColumns(ShiftRows(SubBytes(Columns(wtxt[..]))))
    {
      hide EncryptColumn, Unpack, MixColumn, ShiftedColumn, SubBytes;
      ghost var s := SubBytes(Columns(wtxt[..]));
      for j := 0 to 4
        invariant forall n | 0 <= n < j :: Unpack(t[n]) == MixColumn(ShiftedColumn(s, n))
      {
        t[j] := EncryptColumn(wtxt[..], j);
        EncryptColumnMixes(wtxt[..], j);
      }
    }

    method DecryptRound(wtxt: array<bv32>, t: array<bv32>)
      requires wtxt.Length == 4 && t.Length == 4 && t != wtxt
      modifies t
      ensures Columns(t[..]) == InvMixColumns(InvShiftRows(InvSubBytes(Columns(wtxt[..]))))
    {
      hide DecryptColumn, Unpack, InvMixColumn, UnshiftedColumn, InvSubBytes;
      ghost var s := InvSubBytes(Columns(wtxt[..]));
      for j := 0 to 4
        invariant forall n | 0 <= n < j :: Unpack(t[n]) == InvMixColumn(UnshiftedColumn(s, n))
      {
        t[j] := DecryptColumn(wtxt[..], j);
        DecryptColumnUnmixes(wtxt[..], j);
      }
    }

    // The last rounds have no column mixing, so they cannot use the tables.
    method LastEncryptRound(wtxt: array<bv32>, t: array<bv32>)
      requires wtxt.Length == 4 && t.Length == 4 && t != wtxt
      modifies t
      ensures Columns(t[..]) == ShiftRows(SubBytes(Columns(wtxt[..])))
    {
      hide LastEncryptColumn, Unpack, ShiftedColumn, SubBytes;
      ghost var s := SubBytes(Columns(wtxt[..]));
      for j := 0 to 4
        invariant forall n | 0 <= n < j :: Unpack(t[n]) == ShiftedColumn(s, n)
      {
        t[j] := LastEncryptColumn(wtxt[..], j);
        LastEncryptShifts(wtxt[..], j);
      }
    }

    method LastDecryptRound(wtxt: array<bv32>, t: array<bv32>)
      requires wtxt.Length == 4 && t.Length == 4 && t != wtxt
      modifies t
      ensures Columns(t[..]) == InvShiftRows(InvSubBytes(Columns(wtxt[..])))
    {
      hide LastDecryptColumn, Unpack, UnshiftedColumn, InvSubBytes;
      ghost var s := InvSubBytes(Columns(wtxt[..]));
      for j := 0 to 4
        invariant forall n | 0 <= n < j :: Unpack(t[n]) == UnshiftedColumn(s, n)
      {
        t[j] := LastDecryptColumn(wtxt[..], j);
        LastDecryptUnshifts(wtxt[..], j);
      }
    }

    // All rounds on the packed state, up to the last key addition.
    method EncryptRounds(wtxt: array<bv32>, t: array<bv32>)
      requires Ready() && wtxt.Length == 4 && t.Length == 4 && t != wtxt
      requires {wtxt, t} !! {keys, ikeys}
      modifies wtxt, t
      ensures Columns(t[..]) == ShiftRows(SubBytes(Rounds(old(Columns(wtxt[..])), Schedule(), nrounds - 1)))
    {
      hide Columns, SubBytes, ShiftRows, MixColumns, AddRoundKey, RoundKey;
      ghost var s, w := Columns(wtxt[..]), Schedule();
      for r := 1 to nrounds
        invariant Columns(wtxt[..]) == Rounds(s, w, r - 1)
      {
        EncryptRound(wtxt, t);
        KeyAddition32(t, keys, 4 * r, wtxt);
        RoundKeyColumns(keys[..], 4 * (nrounds + 1), r);
      }
      LastEncryptRound(wtxt, t);
    }

    method DecryptRounds(wtxt: array<bv32>, t: array<bv32>)
      requires Ready() && wtxt.Length == 4 && t.Length == 4 && t != wtxt
      requires {wtxt, t} !! {keys, ikeys}
      modifies wtxt, t
      ensures Columns(t[..]) == InvShiftRows(InvSubBytes(EqInvRounds(old(Columns(wtxt[..])), View().dw, nrounds - 1)))
    {
      hide Columns, InvSubBytes, InvShiftRows, InvMixColumns, AddRoundKey, RoundKey;
      ghost var s, dw := Columns(wtxt[..]), View().dw;
      var r := nrounds - 1;
      while r > 0
        invariant 0 <= r < nrounds
        invariant EqInvRounds(Columns(wtxt[..]), dw, r) == EqInvRounds(s, dw, nrounds - 1)
      {
        DecryptRound(wtxt, t);
        KeyAddition32(t, ikeys, 4 * r, wtxt);
        RoundKeyColumns(ikeys[..], 4 * (nrounds + 1), r);
        r := r - 1;
      }
      LastDecryptRound(wtxt, t);
    }

    lemma ScheduleLength()
      requires Ready()
      ensures IsSchedule(Schedule(), nrounds) && IsSchedule(View().dw, nrounds) && View().Valid()
    {
    }

    // The ciphertext may overwrite the plaintext.
    method Encrypt(plaintext: array<bv8>, at: nat, ciphertext: array<bv8>, to: nat)
      requires Ready() && at + 16 <= plaintext.Length && to + 16 <= ciphertext.Length
      modifies ciphertext
      ensures BlockPut(ciphertext[..], old(ciphertext[..]), to, EncryptBlock(View(), old(plaintext[at..at + 16])))
    {
      hide BlockPut, Columns, ToState, FromState, SubBytes, ShiftRows, AddRoundKey, RoundKey, Rounds, IsInverseSchedule;
      ScheduleLength();
      var wtxt, t := new bv32[4], new bv32[4];
      KeyAddition8To32(plaintext, at, keys, 0, wtxt);
      RoundKeyColumns(keys[..], 4 * (nrounds + 1), 0);
      EncryptRounds(wtxt, t);
      KeyAddition32To8(t, keys, 4 * nrounds, ciphertext, to);
      RoundKeyColumns(keys[..], 4 * (nrounds + 1), nrounds);
    }

    method Decrypt(ciphertext: array<bv8>, at: nat, plaintext: array<bv8>, to: nat)
      requires Ready() && at + 16 <= ciphertext.Length && to + 16 <= plaintext.Length
      modifies plaintext
      ensures BlockPut(plaintext[..], old(plaintext[..]), to, DecryptBlock(View(), old(ciphertext[at..at + 16])))
    {
      hide BlockPut, Columns, ToState, FromState, InvSubBytes, InvShiftRows, AddRoundKey, RoundKey, EqInvRounds;
      hide IsInverseSchedule;
      ScheduleLength();
      var wtxt, t := new bv32[4], new bv32[4];
      KeyAddition8To32(ciphertext, at, ikeys, 4 * nrounds, wtxt);
      RoundKeyColumns(ikeys[..], 4 * (nrounds + 1), nrounds);
      DecryptRounds(wtxt, t);
      KeyAddition32To8(t, ikeys, 0, plaintext, to);
      RoundKeyColumns(ikeys[..], 4 * (nrounds + 1), 0);
    }
  }

  function KeyWords(keysize: nat): nat {
    if keysize >= 32 then 8 else if keysize >= 24 then 6 else 4
  }

  lemma RconOne()
    ensures Rcon(1) == 1
  {
  }
}
