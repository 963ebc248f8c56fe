/**
 The S-box of the cipher against its definition in section 5.1.1 of FIPS 197: the
 multiplicative inverse in GF(2^8) followed by an affine transformation.
 */
module SubstitutionBox {
  import opened RijndaelTables
  import opened Gf256

  function Inverse(x: bv8): bv8 { if x == 0 then 0 else AlogTable(0xff - LogTable(x)) }

  function Affine(b: bv8): bv8 {
    b ^ ((b << 1) | (b >> 7)) ^ ((b << 2) | (b >> 6)) ^ ((b << 3) | (b >> 5)) ^ ((b << 4) | (b >> 4)) ^ 0x63
  }

  lemma LogsCancel(i: bv8)
    requires 0 < i < 255
    ensures AddLogs(i, 0xff - i) == 0 && AlogTable(0) == 1
  {
  }

  lemma LogOfOne()
    ensures AlogTable(0) == 1 && AlogTable(255) == 1
  {
  }

  lemma OneTimesOne()
    ensures Product(1, 1) == 1
  {
    ProductOne(1);
  }

  lemma InverseIsInverse(x: bv8)
    requires x != 0
    ensures Product(x, Inverse(x)) == 1
  {
    hide AlogTable, LogTable, AddLogs, Product;
    AlogOfLog(x);
    var i := LogTable(x);
    if i == 0 {
      LogOfOne();
      OneTimesOne();
    } else {
      LogsCancel(i);
      ProductOfPowers(i, 0xff - i);
    }
  }

  lemma SboxIsAffineInverse(x: bv8)
    ensures Sbox(x) == Affine(Inverse(x))
  {
  }
}
