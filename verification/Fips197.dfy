/**
 The AES cipher and its inverses as FIPS 197 defines them, on columns of four
 field elements, and the proof that the inverse cipher of section 5.3 and the
 equivalent inverse cipher of section 5.3.5 both undo the cipher, for every key
 schedule, every block and every number of rounds.
 */
module Fips197 {
  import opened RijndaelTables
  import opened Gf256

  // A column of the state, or a word of the key schedule.
  datatype Word = Word(b0: bv8, b1: bv8, b2: bv8, b3: bv8)

  type State = s: seq<Word> | |s| == 4 witness [ZeroWord, ZeroWord, ZeroWord, ZeroWord]

  const ZeroWord := Word(0, 0, 0, 0)

  function Sum4(a: bv8, b: bv8, c: bv8, d: bv8): bv8 { Add(Add(a, b), Add(c, d)) }

  function AddWord(u: Word, v: Word): Word {
    Word(Add(u.b0, v.b0), Add(u.b1, v.b1), Add(u.b2, v.b2), Add(u.b3, v.b3))
  }

  // The bytes moved up one place, the last one coming first.
  function RotateUp(w: Word): Word { Word(w.b3, w.b0, w.b1, w.b2) }

  // The inner product of a matrix row with a column.
  function Dot(k: Word, w: Word): bv8 {
    Sum4(Product(k.b0, w.b0), Product(k.b1, w.b1), Product(k.b2, w.b2), Product(k.b3, w.b3))
  }

  // Multiplication of a column by the circulant matrix with first row k.
  function Circulant(k: Word, w: Word): Word {
    Word(Dot(k, w), Dot(RotateUp(k), w), Dot(RotateUp(RotateUp(k)), w), Dot(RotateUp(RotateUp(RotateUp(k))), w))
  }

  // Sections 5.1.3 and 5.3.3.
  function MixColumn(w: Word): Word { Circulant(MIX, w) }
  function InvMixColumn(w: Word): Word { Circulant(UNMIX, w) }

  function SubWord(w: Word): Word { Word(Sbox(w.b0), Sbox(w.b1), Sbox(w.b2), Sbox(w.b3)) }
  function InvSubWord(w: Word): Word { Word(Isbox(w.b0), Isbox(w.b1), Isbox(w.b2), Isbox(w.b3)) }

  // ----- the two matrices are inverse to each other -----

  lemma ProductEven(n: nat, a: bv8, b: bv8)
    requires a & 1 == 0
    ensures PartialProduct(n + 1, a, b) == PartialProduct(n, Half(a), Xtime(b))
  {
    hide Half, Xtime;
  }

  lemma ProductOdd(n: nat, a: bv8, b: bv8)
    requires a & 1 == 1
    ensures PartialProduct(n + 1, a, b) == Add(b, PartialProduct(n, Half(a), Xtime(b)))
  {
    hide Half, Xtime;
  }

  lemma ProductUnit(n: nat, b: bv8)
    ensures PartialProduct(n + 1, 1, b) == b
  {
    hide Xtime;
    PartialProductZero(n, 0, Xtime(b));
  }

  // The products with the coefficients of the two matrices.
  lemma Coefficients(x: bv8)
    ensures var x2 := Xtime(x); var x4 := Xtime(x2); var x8 := Xtime(x4);
      && Product(1, x) == x && Product(2, x) == x2 && Product(3, x) == Add(x, x2)
      && Product(0x9, x) == Add(x, x8) && Product(0xb, x) == Add(x, Add(x2, x8))
      && Product(0xd, x) == Add(x, Add(x4, x8)) && Product(0xe, x) == Add(x2, Add(x4, x8))
  {
    hide Add, Xtime, PartialProduct, Select;
    var x2 := Xtime(x); var x4 := Xtime(x2); var x8 := Xtime(x4);
    ProductUnit(7, x); ProductUnit(6, x2); ProductUnit(4, x8);
    ProductEven(7, 2, x); ProductOdd(7, 3, x);
    ProductOdd(7, 9, x); ProductEven(6, 4, x2); ProductEven(5, 2, x4);
    ProductOdd(7, 0xb, x); ProductOdd(6, 5, x2); ProductEven(5, 2, x4);
    ProductOdd(7, 0xd, x); ProductEven(6, 6, x2); ProductOdd(5, 3, x4);
    ProductEven(7, 0xe, x); ProductOdd(6, 7, x2);
  }

  // What a byte x in row 0 contributes: x times column 0 of the circulant matrix with first row k.
  function Column0(k: Word, x: bv8): Word {
    Word(Product(k.b0, x), Product(k.b3, x), Product(k.b2, x), Product(k.b1, x))
  }

  const MIX := Word(2, 3, 1, 1)
  const UNMIX := Word(0xe, 0xb, 0xd, 0x9)

  // A row of the inverse matrix times a column of the matrix is 1 or 0.
  lemma DiagonalEntry(x: bv8)
    ensures Dot(UNMIX, Column0(MIX, x)) == x
  {
    hide Product;
    Coefficients(x);
    Coefficients(Product(2, x));
    Coefficients(Product(3, x));
  }

  lemma OffDiagonalEntry1(x: bv8)
    ensures Dot(UNMIX, RotateUp(Column0(MIX, x))) == 0
  {
    hide Product;
    Coefficients(x);
    Coefficients(Product(2, x));
    Coefficients(Product(3, x));
  }

  lemma OffDiagonalEntry2(x: bv8)
    ensures Dot(UNMIX, RotateUp(RotateUp(Column0(MIX, x)))) == 0
  {
    hide Product;
    Coefficients(x);
    Coefficients(Product(2, x));
    Coefficients(Product(3, x));
  }

  lemma OffDiagonalEntry3(x: bv8)
    ensures Dot(UNMIX, RotateUp(RotateUp(RotateUp(Column0(MIX, x))))) == 0
  {
    hide Product;
    Coefficients(x);
    Coefficients(Product(2, x));
    Coefficients(Product(3, x));
  }

  lemma DotRotate(k: Word, w: Word)
    ensures Dot(RotateUp(k), RotateUp(w)) == Dot(k, w)
  {
    hide Add, Product;
    var a, b, c, d := Product(k.b0, w.b0), Product(k.b1, w.b1), Product(k.b2, w.b2), Product(k.b3, w.b3);
    AddLaws(d, a, Add(b, c));
    AddLaws(a, b, c);
    AddLaws(Add(a, b), c, d);
    AddLaws(Add(Add(a, b), c), d, 0);
    AddLaws(d, Add(a, Add(b, c)), 0);
  }

  lemma ProductSum4(k: bv8, a: bv8, b: bv8, c: bv8, d: bv8)
    ensures Product(k, Sum4(a, b, c, d)) == Sum4(Product(k, a), Product(k, b), Product(k, c), Product(k, d))
  {
    hide Add, PartialProduct;
    ProductAdd(8, k, Add(a, b), Add(c, d));
    ProductAdd(8, k, a, b);
    ProductAdd(8, k, c, d);
  }

  lemma Sum4Add(u: Word, v: Word)
    ensures var w := AddWord(u, v);
            Sum4(w.b0, w.b1, w.b2, w.b3) == Add(Sum4(u.b0, u.b1, u.b2, u.b3), Sum4(v.b0, v.b1, v.b2, v.b3))
  {
    hide Add;
    AddSwap(u.b0, v.b0, u.b1, v.b1);
    AddSwap(u.b2, v.b2, u.b3, v.b3);
    AddSwap(Add(u.b0, u.b1), Add(v.b0, v.b1), Add(u.b2, u.b3), Add(v.b2, v.b3));
  }

  lemma Sum4Transpose(a: Word, b: Word, c: Word, d: Word)
    ensures Sum4(Sum4(a.b0, a.b1, a.b2, a.b3), Sum4(b.b0, b.b1, b.b2, b.b3),
                 Sum4(c.b0, c.b1, c.b2, c.b3), Sum4(d.b0, d.b1, d.b2, d.b3))
         == Sum4(Sum4(a.b0, b.b0, c.b0, d.b0), Sum4(a.b1, b.b1, c.b1, d.b1),
                 Sum4(a.b2, b.b2, c.b2, d.b2), Sum4(a.b3, b.b3, c.b3, d.b3))
  {
    hide Add;
    Sum4Add(a, b);
    Sum4Add(c, d);
    Sum4Add(AddWord(a, b), AddWord(c, d));
  }

  // A row applied to the sum of the columns a, b, c and d.
  lemma DotOfSum(k: Word, a: Word, b: Word, c: Word, d: Word)
    ensures Dot(k, AddWord(AddWord(a, b), AddWord(c, d))) == Sum4(Dot(k, a), Dot(k, b), Dot(k, c), Dot(k, d))
  {
    hide Add, Product;
    ProductSum4(k.b0, a.b0, b.b0, c.b0, d.b0);
    ProductSum4(k.b1, a.b1, b.b1, c.b1, d.b1);
    ProductSum4(k.b2, a.b2, b.b2, c.b2, d.b2);
    ProductSum4(k.b3, a.b3, b.b3, c.b3, d.b3);
    Sum4Transpose(
      Word(Product(k.b0, a.b0), Product(k.b1, a.b1), Product(k.b2, a.b2), Product(k.b3, a.b3)),
      Word(Product(k.b0, b.b0), Product(k.b1, b.b1), Product(k.b2, b.b2), Product(k.b3, b.b3)),
      Word(Product(k.b0, c.b0), Product(k.b1, c.b1), Product(k.b2, c.b2), Product(k.b3, c.b3)),
      Word(Product(k.b0, d.b0), Product(k.b1, d.b1), Product(k.b2, d.b2), Product(k.b3, d.b3)));
  }

  // A circulant product is the sum of the bytes' contributions.
  lemma CirculantSplit(k: Word, w: Word)
    ensures Circulant(k, w) == AddWord(AddWord(Column0(k, w.b0), RotateUp(Column0(k, w.b1))),
                                       AddWord(RotateUp(RotateUp(Column0(k, w.b2))),
                                               RotateUp(RotateUp(RotateUp(Column0(k, w.b3))))))
  {
    hide Add, Product;
  }

  // Row i of the inverse matrix against column j of the matrix.
  lemma MatrixEntries(k: Word, x: bv8)
    requires k == UNMIX
    ensures var k1 := RotateUp(k); var k2 := RotateUp(k1); var k3 := RotateUp(k2);
            var m := Column0(MIX, x); var m1 := RotateUp(m); var m2 := RotateUp(m1); var m3 := RotateUp(m2);
            && Dot(k, m) == x && Dot(k, m1) == 0 && Dot(k, m2) == 0 && Dot(k, m3) == 0
            && Dot(k1, m) == 0 && Dot(k1, m1) == x && Dot(k1, m2) == 0 && Dot(k1, m3) == 0
            && Dot(k2, m) == 0 && Dot(k2, m1) == 0 && Dot(k2, m2) == x && Dot(k2, m3) == 0
            && Dot(k3, m) == 0 && Dot(k3, m1) == 0 && Dot(k3, m2) == 0 && Dot(k3, m3) == x
  {
    hide Dot, Column0;
    var k1 := RotateUp(k); var k2 := RotateUp(k1);
    var m := Column0(MIX, x); var m1 := RotateUp(m); var m2 := RotateUp(m1); var m3 := RotateUp(m2);
    DiagonalEntry(x);
    OffDiagonalEntry1(x);
    OffDiagonalEntry2(x);
    OffDiagonalEntry3(x);
    DotRotate(k, m); DotRotate(k, m1); DotRotate(k, m2); DotRotate(k, m3);
    DotRotate(k1, m); DotRotate(k1, m1); DotRotate(k1, m2); DotRotate(k1, m3);
    DotRotate(k2, m); DotRotate(k2, m1); DotRotate(k2, m2); DotRotate(k2, m3);
  }

  lemma Sum4Single(x: bv8)
    ensures Sum4(x, 0, 0, 0) == x && Sum4(0, x, 0, 0) == x && Sum4(0, 0, x, 0) == x && Sum4(0, 0, 0, x) == x
  {
  }

  lemma InvMixMix(w: Word)
    ensures InvMixColumn(MixColumn(w)) == w
  {
    hide Dot, Column0, AddWord, Sum4;
    var k := UNMIX;
    var k1 := RotateUp(k); var k2 := RotateUp(k1); var k3 := RotateUp(k2);
    var a, b := Column0(MIX, w.b0), RotateUp(Column0(MIX, w.b1));
    var c, d := RotateUp(RotateUp(Column0(MIX, w.b2))), RotateUp(RotateUp(RotateUp(Column0(MIX, w.b3))));
    CirculantSplit(MIX, w);
    DotOfSum(k, a, b, c, d);
    DotOfSum(k1, a, b, c, d);
    DotOfSum(k2, a, b, c, d);
    DotOfSum(k3, a, b, c, d);
    MatrixEntries(k, w.b0);
    MatrixEntries(k, w.b1);
    MatrixEntries(k, w.b2);
    MatrixEntries(k, w.b3);
    Sum4Single(w.b0);
    Sum4Single(w.b1);
    Sum4Single(w.b2);
    Sum4Single(w.b3);
  }

  lemma DotAdd(k: Word, u: Word, v: Word)
    ensures Dot(k, AddWord(u, v)) == Add(Dot(k, u), Dot(k, v))
  {
    hide Add, PartialProduct, Sum4;
    ProductAdd(8, k.b0, u.b0, v.b0);
    ProductAdd(8, k.b1, u.b1, v.b1);
    ProductAdd(8, k.b2, u.b2, v.b2);
    ProductAdd(8, k.b3, u.b3, v.b3);
    Sum4Add(Word(Product(k.b0, u.b0), Product(k.b1, u.b1), Product(k.b2, u.b2), Product(k.b3, u.b3)),
            Word(Product(k.b0, v.b0), Product(k.b1, v.b1), Product(k.b2, v.b2), Product(k.b3, v.b3)));
  }

  lemma InvMixLinear(u: Word, v: Word)
    ensures InvMixColumn(AddWord(u, v)) == AddWord(InvMixColumn(u), InvMixColumn(v))
  {
    hide Dot, Add;
    var k := UNMIX;
    DotAdd(k, u, v);
    DotAdd(RotateUp(k), u, v);
    DotAdd(RotateUp(RotateUp(k)), u, v);
    DotAdd(RotateUp(RotateUp(RotateUp(k))), u, v);
  }

  // ----- the round transformations of sections 5.1 and 5.3 -----

  function SubBytes(s: State): State { hide SubWord; [SubWord(s[0]), SubWord(s[1]), SubWord(s[2]), SubWord(s[3])] }
  function InvSubBytes(s: State): State {
    hide InvSubWord;
    [InvSubWord(s[0]), InvSubWord(s[1]), InvSubWord(s[2]), InvSubWord(s[3])]
  }

  // Column j takes its bytes from columns j, j+1, j+2 and j+3.
  function ShiftedColumn(s: State, j: nat): Word {
    Word(s[j % 4].b0, s[(j + 1) % 4].b1, s[(j + 2) % 4].b2, s[(j + 3) % 4].b3)
  }
  // Column j takes its bytes from columns j, j-1, j-2 and j-3.
  function UnshiftedColumn(s: State, j: nat): Word {
    Word(s[j % 4].b0, s[(j + 3) % 4].b1, s[(j + 2) % 4].b2, s[(j + 1) % 4].b3)
  }
  function ShiftRows(s: State): State {
    [ShiftedColumn(s, 0), ShiftedColumn(s, 1), ShiftedColumn(s, 2), ShiftedColumn(s, 3)]
  }
  function InvShiftRows(s: State): State {
    [UnshiftedColumn(s, 0), UnshiftedColumn(s, 1), UnshiftedColumn(s, 2), UnshiftedColumn(s, 3)]
  }

  function MixColumns(s: State): State {
    hide MixColumn;
    [MixColumn(s[0]), MixColumn(s[1]), MixColumn(s[2]), MixColumn(s[3])]
  }
  function InvMixColumns(s: State): State {
    hide InvMixColumn; [InvMixColumn(s[0]), InvMixColumn(s[1]), InvMixColumn(s[2]), InvMixColumn(s[3])]
  }

  function AddRoundKey(s: State, k: State): State {
    [AddWord(s[0], k[0]), AddWord(s[1], k[1]), AddWord(s[2], k[2]), AddWord(s[3], k[3])]
  }

  // A key schedule for nr rounds holds the nr + 1 round keys.
  ghost predicate IsSchedule(w: seq<Word>, nr: nat) { |w| == 4 * (nr + 1) }

  function RoundKey(w: seq<Word>, r: nat): State
    requires 4 * r + 4 <= |w|
  {
    w[4 * r..4 * r + 4]
  }

  function Round(s: State, k: State): State { AddRoundKey(MixColumns(ShiftRows(SubBytes(s))), k) }

  // The state after rounds 1 to r.
  function Rounds(s: State, w: seq<Word>, r: nat): State
    requires 4 * r + 4 <= |w|
    decreases r
  {
    if r == 0 then s else Round(Rounds(s, w, r - 1), RoundKey(w, r))
  }

  function Cipher(input: State, w: seq<Word>, nr: nat): State
    requires nr > 0 && IsSchedule(w, nr)
  {
    AddRoundKey(ShiftRows(SubBytes(Rounds(AddRoundKey(input, RoundKey(w, 0)), w, nr - 1))), RoundKey(w, nr))
  }

  // Section 5.3: undoes rounds r to 1.
  function InvRounds(s: State, w: seq<Word>, r: nat): State
    requires 4 * r + 4 <= |w|
    decreases r
  {
    if r == 0 then s
    else InvRounds(InvMixColumns(AddRoundKey(InvSubBytes(InvShiftRows(s)), RoundKey(w, r))), w, r - 1)
  }

  function InvCipher(input: State, w: seq<Word>, nr: nat): State
    requires nr > 0 && IsSchedule(w, nr)
  {
    AddRoundKey(InvSubBytes(InvShiftRows(InvRounds(AddRoundKey(input, RoundKey(w, nr)), w, nr - 1))), RoundKey(w, 0))
  }

  // Section 5.3.5: the same order of steps as the cipher, with its own keys.
  function EqInvRounds(s: State, dw: seq<Word>, r: nat): State
    requires 4 * r + 4 <= |dw|
    decreases r
  {
    if r == 0 then s
    else EqInvRounds(AddRoundKey(InvMixColumns(InvShiftRows(InvSubBytes(s))), RoundKey(dw, r)), dw, r - 1)
  }

  function EqInvCipher(input: State, dw: seq<Word>, nr: nat): State
    requires nr > 0 && IsSchedule(dw, nr)
  {
    var s := EqInvRounds(AddRoundKey(input, RoundKey(dw, nr)), dw, nr - 1);
    AddRoundKey(InvShiftRows(InvSubBytes(s)), RoundKey(dw, 0))
  }

  // The inner round keys of the equivalent inverse cipher are unmixed, the outer ones are not.
  ghost predicate IsInverseSchedule(dw: seq<Word>, w: seq<Word>, nr: nat) {
    && nr > 0
    && IsSchedule(w, nr)
    && IsSchedule(dw, nr)
    && (forall i | 0 <= i < 4 || 4 * nr <= i < 4 * nr + 4 :: dw[i] == w[i])
    && (forall i | 4 <= i < 4 * nr :: dw[i] == InvMixColumn(w[i]))
  }

  function InverseSchedule(w: seq<Word>, nr: nat): (dw: seq<Word>)
    requires nr > 0 && IsSchedule(w, nr)
    ensures IsInverseSchedule(dw, w, nr)
  {
    hide InvMixColumn;
    seq(|w|, i requires 0 <= i < |w| => if 4 <= i < 4 * nr then InvMixColumn(w[i]) else w[i])
  }

  lemma InverseScheduleUnique(dw: seq<Word>, w: seq<Word>, nr: nat)
    requires IsInverseSchedule(dw, w, nr)
    ensures dw == InverseSchedule(w, nr)
  {
    hide InvMixColumn;
  }

  // ----- every transformation is undone -----

  lemma SubWordInverse(w: Word)
    ensures InvSubWord(SubWord(w)) == w
  {
    hide Sbox, Isbox;
    SboxInverse(w.b0);
    SboxInverse(w.b1);
    SboxInverse(w.b2);
    SboxInverse(w.b3);
  }

  lemma SboxInverse(x: bv8)
    ensures Isbox(Sbox(x)) == x
  {
  }

  lemma AddWordTwice(u: Word, k: Word)
    ensures AddWord(AddWord(u, k), k) == u
  {
    hide Add;
    AddLaws(u.b0, k.b0, k.b0);
    AddLaws(u.b1, k.b1, k.b1);
    AddLaws(u.b2, k.b2, k.b2);
    AddLaws(u.b3, k.b3, k.b3);
    AddLaws(u.b0, 0, 0); AddLaws(k.b0, 0, 0);
    AddLaws(u.b1, 0, 0); AddLaws(k.b1, 0, 0);
    AddLaws(u.b2, 0, 0); AddLaws(k.b2, 0, 0);
    AddLaws(u.b3, 0, 0); AddLaws(k.b3, 0, 0);
  }

  lemma AddRoundKeyTwice(s: State, k: State)
    ensures AddRoundKey(AddRoundKey(s, k), k) == s
  {
    hide AddWord;
    AddWordTwice(s[0], k[0]);
    AddWordTwice(s[1], k[1]);
    AddWordTwice(s[2], k[2]);
    AddWordTwice(s[3], k[3]);
  }

  lemma ShiftSubInverse(s: State)
    ensures InvSubBytes(InvShiftRows(ShiftRows(SubBytes(s)))) == s
  {
    hide SubWord, InvSubWord;
    assert InvShiftRows(ShiftRows(SubBytes(s))) == SubBytes(s);
    SubWordInverse(s[0]);
    SubWordInverse(s[1]);
    SubWordInverse(s[2]);
    SubWordInverse(s[3]);
  }

  lemma MixColumnsInverse(s: State)
    ensures InvMixColumns(MixColumns(s)) == s
  {
    hide MixColumn, InvMixColumn;
    InvMixMix(s[0]);
    InvMixMix(s[1]);
    InvMixMix(s[2]);
    InvMixMix(s[3]);
  }

  lemma InvMixRoundKey(s: State, k: State)
    ensures InvMixColumns(AddRoundKey(s, k)) == AddRoundKey(InvMixColumns(s), InvMixColumns(k))
  {
    hide AddWord, InvMixColumn;
    InvMixLinear(s[0], k[0]);
    InvMixLinear(s[1], k[1]);
    InvMixLinear(s[2], k[2]);
    InvMixLinear(s[3], k[3]);
  }

  lemma SubShiftColumn(s: State, j: nat)
    requires j < 4
    ensures InvSubWord(UnshiftedColumn(s, j)) == UnshiftedColumn(InvSubBytes(s), j)
  {
    hide Isbox;
    var t := InvSubBytes(s);
    assert forall i | 0 <= i < 4 :: t[i] == InvSubWord(s[i]);
  }

  lemma SubShiftCommute(s: State)
    ensures InvSubBytes(InvShiftRows(s)) == InvShiftRows(InvSubBytes(s))
  {
    hide InvSubWord, UnshiftedColumn;
    SubShiftColumn(s, 0);
    SubShiftColumn(s, 1);
    SubShiftColumn(s, 2);
    SubShiftColumn(s, 3);
  }

  lemma {:induction false} InvRoundsUndoRounds(s: State, w: seq<Word>, r: nat)
    requires 4 * r + 4 <= |w|
    ensures InvRounds(ShiftRows(SubBytes(Rounds(s, w, r))), w, r) == ShiftRows(SubBytes(s))
  {
    hide SubBytes, ShiftRows, InvSubBytes, InvShiftRows, MixColumns, InvMixColumns, AddRoundKey, RoundKey;
    if r > 0 {
      var x := ShiftRows(SubBytes(Rounds(s, w, r - 1)));
      ShiftSubInverse(Rounds(s, w, r));
      AddRoundKeyTwice(MixColumns(x), RoundKey(w, r));
      MixColumnsInverse(x);
      InvRoundsUndoRounds(s, w, r - 1);
    }
  }

  // Section 5.3: the inverse cipher undoes the cipher.
  lemma InvCipherUndoesCipher(input: State, w: seq<Word>, nr: nat)
    requires nr > 0 && IsSchedule(w, nr)
    ensures InvCipher(Cipher(input, w, nr), w, nr) == input
  {
    hide SubBytes, ShiftRows, InvSubBytes, InvShiftRows, AddRoundKey, RoundKey, Rounds, InvRounds;
    var s := AddRoundKey(input, RoundKey(w, 0));
    AddRoundKeyTwice(ShiftRows(SubBytes(Rounds(s, w, nr - 1))), RoundKey(w, nr));
    InvRoundsUndoRounds(s, w, nr - 1);
    ShiftSubInverse(s);
    AddRoundKeyTwice(input, RoundKey(w, 0));
  }

  lemma {:induction false} EqInvRoundsAreInvRounds(s: State, dw: seq<Word>, w: seq<Word>, nr: nat, r: nat)
    requires IsInverseSchedule(dw, w, nr) && r < nr
    ensures EqInvRounds(s, dw, r) == InvRounds(s, w, r)
    decreases r
  {
    hide SubBytes, ShiftRows, InvSubBytes, InvShiftRows, AddRoundKey, InvMixColumn;
    if r > 0 {
      SubShiftCommute(s);
      InvMixRoundKey(InvShiftRows(InvSubBytes(s)), RoundKey(w, r));
      assert RoundKey(dw, r) == InvMixColumns(RoundKey(w, r));
      EqInvRoundsAreInvRounds(
        AddRoundKey(InvMixColumns(InvShiftRows(InvSubBytes(s))), RoundKey(dw, r)), dw, w, nr, r - 1);
    }
  }

  // Section 5.3.5: the equivalent inverse cipher is the inverse cipher.
  lemma EqInvCipherIsInvCipher(input: State, dw: seq<Word>, w: seq<Word>, nr: nat)
    requires IsInverseSchedule(dw, w, nr)
    ensures EqInvCipher(input, dw, nr) == InvCipher(input, w, nr)
  {
    hide SubBytes, ShiftRows, InvSubBytes, InvShiftRows, AddRoundKey, InvMixColumn, EqInvRounds, InvRounds;
    assert RoundKey(dw, nr) == RoundKey(w, nr);
    assert RoundKey(dw, 0) == RoundKey(w, 0);
    var s := AddRoundKey(input, RoundKey(w, nr));
    EqInvRoundsAreInvRounds(s, dw, w, nr, nr - 1);
    SubShiftCommute(InvRounds(s, w, nr - 1));
  }

  lemma EqInvCipherUndoesCipher(input: State, dw: seq<Word>, w: seq<Word>, nr: nat)
    requires IsInverseSchedule(dw, w, nr)
    ensures EqInvCipher(Cipher(input, w, nr), dw, nr) == input
  {
    EqInvCipherIsInvCipher(Cipher(input, w, nr), dw, w, nr);
    InvCipherUndoesCipher(input, w, nr);
  }

  // ----- section 5.2: key expansion -----

  function RotWord(w: Word): Word { Word(w.b1, w.b2, w.b3, w.b0) }

  // The round constant x^(i-1).
  function Rcon(i: nat): bv8
    requires i > 0
  {
    if i == 1 then 1 else Xtime(Rcon(i - 1))
  }

  function KeyWord(key: seq<bv8>, nk: nat, i: nat): Word
    requires nk > 0 && 4 * nk <= |key|
    decreases i
  {
    if i < nk then Word(key[4 * i], key[4 * i + 1], key[4 * i + 2], key[4 * i + 3])
    else
      var temp := KeyWord(key, nk, i - 1);
      var t := if i % nk == 0 then AddWord(SubWord(RotWord(temp)), Word(Rcon(i / nk), 0, 0, 0))
               else if nk > 6 && i % nk == 4 then SubWord(temp)
               else temp;
      AddWord(KeyWord(key, nk, i - nk), t)
  }

  // The schedule of an nk-word key has nk + 7 round keys.
  function KeyExpansion(key: seq<bv8>, nk: nat): (w: seq<Word>)
    requires nk > 0 && 4 * nk <= |key|
    ensures IsSchedule(w, nk + 6)
  {
    seq(4 * (nk + 7), i requires 0 <= i => KeyWord(key, nk, i))
  }
}
