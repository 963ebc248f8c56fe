/**
 Arithmetic in GF(2^8) with the reduction polynomial x^8 + x^4 + x^3 + x + 1
 (section 4 of FIPS 197), and the proof that the cipher's log-table product
 `Mul` is the field product for every pair of bytes.
 */
module Gf256 {
  import opened RijndaelTables

  // Field addition.
  function Add(a: bv8, b: bv8): bv8 { a ^ b }

  // Multiplication by x, i.e. by 2.
  function Xtime(a: bv8): bv8 {
    (a << 1) ^ ((a >> 7) * 0x1b)
  }

  // b when the lowest bit of a is set, otherwise 0.
  function Select(a: bv8, b: bv8): bv8 { (0 - (a & 1)) & b }

  function Half(a: bv8): bv8 { a >> 1 }

  // The product of b with the polynomial of the n lowest bits of a.
  function PartialProduct(n: nat, a: bv8, b: bv8): bv8 {
    if n == 0 then 0 else Add(Select(a, b), PartialProduct(n - 1, Half(a), Xtime(b)))
  }

  // The field product by shift and add: the reference definition.
  function Product(a: bv8, b: bv8): bv8 { PartialProduct(8, a, b) }

  // The product computed through the logarithm tables.
  function Mul(a: bv8, b: bv8): bv8 {
    if a != 0 && b != 0 then AlogTable(AddLogs(LogTable(a), LogTable(b))) else 0
  }

  function AddLogs(i: bv8, j: bv8): bv8 { ((i as bv16 + j as bv16) % 255) as bv8 }

  lemma XtimeBranches(a: bv8)
    ensures Xtime(a) == if a & 0x80 != 0 then (a << 1) ^ 0x1b else a << 1
  {
  }

  lemma AddLaws(a: bv8, b: bv8, c: bv8)
    ensures Add(a, b) == Add(b, a)
    ensures Add(Add(a, b), c) == Add(a, Add(b, c))
    ensures Add(a, 0) == a && Add(a, a) == 0
  {
  }

  lemma AddSwap(p: bv8, q: bv8, r: bv8, s: bv8)
    ensures Add(Add(p, q), Add(r, s)) == Add(Add(p, r), Add(q, s))
  {
    hide Add;
    AddLaws(p, q, Add(r, s));
    AddLaws(q, r, s);
    AddLaws(r, q, s);
    AddLaws(p, r, Add(q, s));
  }

  lemma XtimeLinear(a: bv8, b: bv8)
    ensures Xtime(Add(a, b)) == Add(Xtime(a), Xtime(b))
  {
  }

  lemma SelectLaws(a: bv8, b: bv8, c: bv8)
    ensures Select(a, Add(b, c)) == Add(Select(a, b), Select(a, c))
    ensures Xtime(Select(a, b)) == Select(a, Xtime(b))
  {
  }

  // ----- the product is linear in its right argument -----

  lemma {:induction false} ProductAdd(n: nat, a: bv8, b: bv8, c: bv8)
    ensures PartialProduct(n, a, Add(b, c)) == Add(PartialProduct(n, a, b), PartialProduct(n, a, c))
  {
    hide Add, Select, Half, Xtime;
    if n == 0 {
      AddLaws(0, 0, 0);
    } else {
      XtimeLinear(b, c);
      SelectLaws(a, b, c);
      ProductAdd(n - 1, Half(a), Xtime(b), Xtime(c));
      AddSwap(Select(a, b), Select(a, c),
              PartialProduct(n - 1, Half(a), Xtime(b)), PartialProduct(n - 1, Half(a), Xtime(c)));
    }
  }

  lemma {:induction false} ProductXtime(n: nat, a: bv8, b: bv8)
    ensures PartialProduct(n, a, Xtime(b)) == Xtime(PartialProduct(n, a, b))
  {
    hide Add, Select, Half, Xtime;
    if n == 0 {
      XtimeZero();
    } else {
      ProductXtime(n - 1, Half(a), Xtime(b));
      SelectLaws(a, b, 0);
      XtimeLinear(Select(a, b), PartialProduct(n - 1, Half(a), Xtime(b)));
    }
  }

  lemma XtimeZero()
    ensures Xtime(0) == 0
  {
  }

  // ----- the log-table product is the field product -----

  function Times3(a: bv8): bv8 { Add(Xtime(a), a) }

  lemma ProductTimes3(a: bv8, b: bv8)
    ensures Product(a, Times3(b)) == Times3(Product(a, b))
  {
    hide Add, Xtime, PartialProduct;
    ProductAdd(8, a, Xtime(b), b);
    ProductXtime(8, a, b);
  }

  lemma ProductOneHigh(a: bv8)
    ensures PartialProduct(4, a, 0x10) == a << 4
  {
    var a1 := Half(a); var a2 := Half(a1); var a3 := Half(a2);
    assert PartialProduct(1, a3, 0x80) == a3 << 7;
    assert PartialProduct(2, a2, 0x40) == a2 << 6;
    assert PartialProduct(3, a1, 0x20) == a1 << 5;
  }

  lemma ProductOne(a: bv8)
    ensures Product(a, 1) == a
  {
    var a1 := Half(a); var a2 := Half(a1); var a3 := Half(a2);
    ProductOneHigh(Half(a3));
    assert PartialProduct(5, a3, 0x08) == a3 << 3;
    assert PartialProduct(6, a2, 0x04) == a2 << 2;
    assert PartialProduct(7, a1, 0x02) == a1 << 1;
  }

  // The exponent after k, modulo the order 255 of the multiplicative group.
  function NextLog(k: bv8): bv8 { if k == 254 then 0 else k + 1 }

  lemma AlogStep(k: bv8)
    requires k < 255
    ensures AlogTable(NextLog(k)) == Times3(AlogTable(k))
  {
  }

  lemma AlogOfLog(a: bv8)
    requires a != 0
    ensures LogTable(a) < 255 && AlogTable(LogTable(a)) == a
  {
  }

  lemma AddLogsBounds(i: bv8, j: bv8)
    requires i < 255
    ensures AddLogs(i, j) < 255 && AddLogs(i, 0) == i && AlogTable(0) == 1
  {
  }

  lemma AddLogsStep(i: bv8, j: bv8)
    requires i < 255 && j < 254
    ensures AddLogs(i, j + 1) == NextLog(AddLogs(i, j))
  {
  }

  lemma {:induction false} ProductOfPowers(i: bv8, j: bv8)
    requires i < 255 && j < 255
    ensures Product(AlogTable(i), AlogTable(j)) == AlogTable(AddLogs(i, j))
    decreases j
  {
    hide AlogTable, Product, Times3, AddLogs;
    AddLogsBounds(i, j);
    if j == 0 {
      ProductOne(AlogTable(i));
    } else {
      ProductOfPowers(i, j - 1);
      AlogStep(j - 1);
      ProductTimes3(AlogTable(i), AlogTable(j - 1));
      AddLogsBounds(i, j - 1);
      AddLogsStep(i, j - 1);
      AlogStep(AddLogs(i, j - 1));
    }
  }

  lemma MulIsProduct(a: bv8, b: bv8)
    ensures Mul(a, b) == Product(a, b)
  {
    hide AlogTable, LogTable, PartialProduct, AddLogs;
    if a != 0 && b != 0 {
      AlogOfLog(a);
      AlogOfLog(b);
      ProductOfPowers(LogTable(a), LogTable(b));
    } else {
      PartialProductZero(8, a, b);
    }
  }

  lemma {:induction false} PartialProductZero(n: nat, a: bv8, b: bv8)
    requires a == 0 || b == 0
    ensures PartialProduct(n, a, b) == 0
  {
    if n != 0 {
      PartialProductZero(n - 1, Half(a), Xtime(b));
    }
  }
}
