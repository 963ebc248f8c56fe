/**
 The block modes of block_encrypt and block_decrypt (sections 6.1 to 6.5 of NIST
 SP 800-38A), the CTR carry loop, and the proof that decryption undoes encryption
 in every supported mode, for every key, IV and number of blocks.
 */
module BlockModes {
  import opened Common
  import opened Fips197
  import opened Rijndael
  import Gf256

  const MODE_ECB := 1
  const MODE_CBC := 2
  const MODE_CFB := 3
  const MODE_PCBC := 4
  const MODE_OFB := 5
  const MODE_CTR := 6

  // The modes with a case of their own; every other value leaves the output alone.
  predicate Supported(mode: int) {
    mode == MODE_ECB || mode == MODE_CBC || mode == MODE_CFB || mode == MODE_OFB || mode == MODE_CTR
  }

  function XorBlock(a: Block, b: Block): (r: Block)
    ensures forall j | 0 <= j < 16 :: r[j] == Gf256.Add(a[j], b[j])
  {
    seq(16, j requires 0 <= j < 16 => Gf256.Add(a[j], b[j]))
  }

  lemma AddTwice(a: bv8, b: bv8)
    ensures Gf256.Add(Gf256.Add(a, b), b) == a
    ensures Gf256.Add(b, Gf256.Add(a, b)) == a && Gf256.Add(b, Gf256.Add(b, a)) == a
  {
  }

  lemma XorTwice(a: Block, b: Block)
    ensures XorBlock(XorBlock(a, b), b) == a && XorBlock(b, XorBlock(a, b)) == a && XorBlock(b, XorBlock(b, a)) == a
  {
    hide Gf256.Add, XorBlock;
    forall j | 0 <= j < 16
      ensures XorBlock(XorBlock(a, b), b)[j] == a[j] && XorBlock(b, XorBlock(a, b))[j] == a[j]
      ensures XorBlock(b, XorBlock(b, a))[j] == a[j]
    {
      AddTwice(a[j], b[j]);
    }
  }

  function BlockAt(data: seq<bv8>, i: nat): Block
    requires 16 * i + 16 <= |data|
  {
    data[16 * i..16 * i + 16]
  }

  // ----- the counter -----

  // The buffer plus one, reading it as a big-endian number and dropping the carry out of the first byte.
  function Increment(b: seq<bv8>): (r: seq<bv8>)
    ensures |r| == |b|
  {
    if b == [] then []
    else
      var n := |b| - 1;
      if b[n] + 1 != 0 then b[..n] + [b[n] + 1] else Increment(b[..n]) + [0]
  }

  function Pow256(n: nat): (r: nat)
    ensures r > 0
  {
    if n == 0 then 1 else 256 * Pow256(n - 1)
  }

  lemma {:induction false} ValueBound(b: seq<bv8>)
    ensures Value(b) < Pow256(|b|)
  {
    if b != [] {
      ValueBound(b[..|b| - 1]);
    }
  }

  lemma Pow256Step(n: nat)
    ensures Pow256(n + 1) == 256 * Pow256(n)
  {
  }

  lemma ValueSnoc(b: seq<bv8>, x: bv8)
    ensures Value(b + [x]) == Value(b) * 256 + x as nat
  {
    assert (b + [x])[..|b|] == b;
  }

  // The carry loop adds one modulo 256 to the length of the buffer.
  lemma {:induction false} IncrementIsSuccessor(b: seq<bv8>)
    ensures Value(Increment(b)) == if Value(b) + 1 == Pow256(|b|) then 0 else Value(b) + 1
  {
    if b != [] {
      hide Pow256, Value;
      var n := |b| - 1;
      var x := b[n];
      assert b == b[..n] + [x];
      Pow256Step(n);
      ByteSuccessor(x);
      ValueBound(b[..n]);
      ValueSnoc(b[..n], x);
      if x + 1 != 0 {
        ValueSnoc(b[..n], x + 1);
      } else {
        IncrementIsSuccessor(b[..n]);
        ValueSnoc(Increment(b[..n]), 0);
      }
    }
  }

  // The counter block of block i is the initial counter plus i, modulo 2^128.
  ghost function Counter(iv: Block, i: nat): Block {
    if i == 0 then iv else Increment(Counter(iv, i - 1))
  }

  lemma {:induction false} CounterValue(iv: Block, i: nat)
    ensures Value(Counter(iv, i)) == (Value(iv) + i) % Pow256(16)
  {
    hide Pow256, Value, Increment;
    ValueBound(iv);
    if i == 0 {
      SmallMod(Value(iv), Pow256(16));
    } else {
      CounterValue(iv, i - 1);
      IncrementIsSuccessor(Counter(iv, i - 1));
      SuccessorMod(Value(iv) + i - 1, Pow256(16));
    }
  }

  lemma SuccessorMod(n: nat, m: nat)
    requires m > 0
    ensures (n + 1) % m == if n % m + 1 == m then 0 else n % m + 1
  {
    var q, r := n / m, n % m;
    assert n == m * q + r;
    if r + 1 == m {
      assert n + 1 == m * (q + 1);
      ModUnique(n + 1, m, q + 1, 0);
    } else {
      ModUnique(n + 1, m, q, r + 1);
    }
  }

  lemma SmallMod(n: nat, m: nat)
    requires n < m
    ensures n % m == n
  {
  }

  lemma ModUnique(n: nat, m: nat, q: nat, r: nat)
    requires r < m && n == m * q + r
    ensures n % m == r
  {
    var d := q - n / m;
    assert m * d == n % m - r;
    if d != 0 {
      NonzeroMultiple(m, d);
    }
  }

  lemma NonzeroMultiple(m: int, d: int)
    requires m >= 0 && d != 0
    ensures m * d >= m || m * d <= -m
  {
    if d > 0 {
      NonNegativeProduct(m, d - 1);
      assert m * d == m + m * (d - 1);
    } else {
      NonNegativeProduct(m, -d - 1);
      assert m * d == -m - m * (-d - 1);
    }
  }

  lemma NonNegativeProduct(a: int, b: int)
    requires a >= 0 && b >= 0
    ensures a * b >= 0
  {
  }

  // ----- what each mode makes of block i -----

  datatype Direction = Encrypting | Decrypting

  ghost function CbcBlock(k: Keys, iv: Block, p: seq<bv8>, i: nat): Block
    requires k.Valid() && 16 * i + 16 <= |p|
  {
    EncryptBlock(k, XorBlock(if i == 0 then iv else CbcBlock(k, iv, p, i - 1), BlockAt(p, i)))
  }

  ghost function CfbBlock(k: Keys, iv: Block, p: seq<bv8>, i: nat): Block
    requires k.Valid() && 16 * i + 16 <= |p|
  {
    XorBlock(EncryptBlock(k, if i == 0 then iv else CfbBlock(k, iv, p, i - 1)), BlockAt(p, i))
  }

  ghost function OfbStream(k: Keys, iv: Block, i: nat): Block
    requires k.Valid()
  {
    EncryptBlock(k, if i == 0 then iv else OfbStream(k, iv, i - 1))
  }

  ghost function OutBlock(k: Keys, d: Direction, mode: int, iv: Block, x: seq<bv8>, i: nat): Block
    requires k.Valid() && 16 * i + 16 <= |x| && Supported(mode)
  {
    if mode == MODE_ECB then
      if d == Encrypting then EncryptBlock(k, BlockAt(x, i)) else DecryptBlock(k, BlockAt(x, i))
    else if mode == MODE_CBC then
      if d == Encrypting then CbcBlock(k, iv, x, i)
      else XorBlock(DecryptBlock(k, BlockAt(x, i)), if i == 0 then iv else BlockAt(x, i - 1))
    else if mode == MODE_CFB then
      if d == Encrypting then CfbBlock(k, iv, x, i)
      else XorBlock(EncryptBlock(k, if i == 0 then iv else BlockAt(x, i - 1)), BlockAt(x, i))
    else if mode == MODE_OFB then
      XorBlock(OfbStream(k, iv, i), BlockAt(x, i))
    else
      XorBlock(EncryptBlock(k, Counter(iv, i)), BlockAt(x, i))
  }

  // The first n output blocks.
  ghost function OutBlocks(k: Keys, d: Direction, mode: int, iv: Block, x: seq<bv8>, n: nat): (r: seq<bv8>)
    requires k.Valid() && 16 * n <= |x| && Supported(mode)
    ensures |r| == 16 * n
  {
    if n == 0 then [] else OutBlocks(k, d, mode, iv, x, n - 1) + OutBlock(k, d, mode, iv, x, n - 1)
  }

  // Bytes after the last block do not matter.
  lemma {:induction false} OutBlocksPrefix(k: Keys, d: Direction, mode: int, iv: Block, x: seq<bv8>, n: nat)
    requires k.Valid() && 16 * n <= |x| && Supported(mode)
    ensures OutBlocks(k, d, mode, iv, x, n) == OutBlocks(k, d, mode, iv, x[..16 * n], n)
  {
    OutBlocksAgree(k, d, mode, iv, x, x[..16 * n], n);
  }

  lemma {:induction false} OutBlocksAgree(k: Keys, d: Direction, mode: int, iv: Block, x: seq<bv8>, y: seq<bv8>, n: nat)
    requires k.Valid() && 16 * n <= |x| && 16 * n <= |y| && x[..16 * n] == y[..16 * n] && Supported(mode)
    ensures OutBlocks(k, d, mode, iv, x, n) == OutBlocks(k, d, mode, iv, y, n)
  {
    hide OutBlock;
    if n > 0 {
      assert x[..16 * (n - 1)] == x[..16 * n][..16 * (n - 1)];
      assert y[..16 * (n - 1)] == y[..16 * n][..16 * (n - 1)];
      OutBlocksAgree(k, d, mode, iv, x, y, n - 1);
      OutBlockAgrees(k, d, mode, iv, x, y, n - 1);
    }
  }

  lemma {:induction false} OutBlockAgrees(k: Keys, d: Direction, mode: int, iv: Block, x: seq<bv8>, y: seq<bv8>, i: nat)
    requires k.Valid() && 16 * i + 16 <= |x| && 16 * i + 16 <= |y| && x[..16 * i + 16] == y[..16 * i + 16]
    requires Supported(mode)
    ensures OutBlock(k, d, mode, iv, x, i) == OutBlock(k, d, mode, iv, y, i)
  {
    hide EncryptBlock, DecryptBlock, XorBlock, Counter, OfbStream;
    BlocksAgree(x, y, i);
    ChainsAgree(k, iv, x, y, i);
  }

  lemma BlocksAgree(x: seq<bv8>, y: seq<bv8>, i: nat)
    requires 16 * i + 16 <= |x| && 16 * i + 16 <= |y| && x[..16 * i + 16] == y[..16 * i + 16]
    ensures BlockAt(x, i) == BlockAt(y, i) && x[..16 * i] == y[..16 * i]
    ensures i > 0 ==> BlockAt(x, i - 1) == BlockAt(y, i - 1)
  {
    var p := x[..16 * i + 16];
    assert BlockAt(x, i) == p[16 * i..] && BlockAt(y, i) == p[16 * i..];
    assert x[..16 * i] == p[..16 * i] && y[..16 * i] == p[..16 * i];
    if i > 0 {
      assert BlockAt(x, i - 1) == p[16 * i - 16..16 * i] && BlockAt(y, i - 1) == p[16 * i - 16..16 * i];
    }
  }

  lemma {:induction false} ChainsAgree(k: Keys, iv: Block, x: seq<bv8>, y: seq<bv8>, i: nat)
    requires k.Valid() && 16 * i + 16 <= |x| && 16 * i + 16 <= |y| && x[..16 * i + 16] == y[..16 * i + 16]
    ensures CbcBlock(k, iv, x, i) == CbcBlock(k, iv, y, i) && CfbBlock(k, iv, x, i) == CfbBlock(k, iv, y, i)
  {
    hide EncryptBlock, DecryptBlock, XorBlock;
    BlocksAgree(x, y, i);
    if i > 0 {
      ChainsAgree(k, iv, x, y, i - 1);
    }
  }

  // ----- decryption undoes encryption -----

  lemma {:induction false} BlockAtOut(k: Keys, d: Direction, mode: int, iv: Block, x: seq<bv8>, n: nat, i: nat)
    requires k.Valid() && 16 * n <= |x| && Supported(mode) && i < n
    ensures BlockAt(OutBlocks(k, d, mode, iv, x, n), i) == OutBlock(k, d, mode, iv, x, i)
  {
    hide OutBlock;
    var r := OutBlocks(k, d, mode, iv, x, n - 1);
    if i < n - 1 {
      BlockAtOut(k, d, mode, iv, x, n - 1, i);
      assert BlockAt(OutBlocks(k, d, mode, iv, x, n), i) == BlockAt(r, i);
    }
  }

  lemma BlockUndone(k: Keys, mode: int, iv: Block, p: seq<bv8>, c: seq<bv8>, i: nat)
    requires k.Valid() && Supported(mode) && |c| == |p| && 16 * i + 16 <= |p|
    requires forall j | 0 <= j <= i :: BlockAt(c, j) == OutBlock(k, Encrypting, mode, iv, p, j)
    ensures OutBlock(k, Decrypting, mode, iv, c, i) == BlockAt(p, i)
  {
    hide EncryptBlock, DecryptBlock, XorBlock, BlockAt, Counter, OfbStream;
    var b := BlockAt(p, i);
    assert BlockAt(c, i) == OutBlock(k, Encrypting, mode, iv, p, i);
    if i > 0 {
      assert BlockAt(c, i - 1) == OutBlock(k, Encrypting, mode, iv, p, i - 1);
    }
    if mode == MODE_ECB {
      DecryptUndoesEncrypt(k, b);
    } else if mode == MODE_CBC {
      var prev := if i == 0 then iv else BlockAt(c, i - 1);
      DecryptUndoesEncrypt(k, XorBlock(prev, b));
      XorCommutes(prev, b);
      XorTwice(b, prev);
    } else if mode == MODE_CFB {
      XorTwice(b, EncryptBlock(k, if i == 0 then iv else BlockAt(c, i - 1)));
    } else if mode == MODE_OFB {
      XorTwice(b, OfbStream(k, iv, i));
    } else {
      XorTwice(b, EncryptBlock(k, Counter(iv, i)));
    }
  }

  // The block before block i.
  function Before(iv: Block, c: seq<bv8>, i: nat): Block
    requires 16 * i <= |c|
  {
    if i == 0 then iv else c[16 * (i - 1)..16 * i]
  }

  // A block of ciphertext from the plaintext, the block before and the cipher alone.
  lemma ChainedBlock(k: Keys, mode: int, iv: Block, p: seq<bv8>, c: seq<bv8>, i: nat)
    requires k.Valid() && Supported(mode) && |c| == |p| && 16 * i + 16 <= |p|
    requires BlockAt(c, i) == OutBlock(k, Encrypting, mode, iv, p, i)
    requires i > 0 ==> BlockAt(c, i - 1) == OutBlock(k, Encrypting, mode, iv, p, i - 1)
    ensures var x, y := BlockAt(p, i), BlockAt(c, i);
            match mode
            case 1 => y == EncryptBlock(k, x)
            case 2 => y == EncryptBlock(k, XorBlock(Before(iv, c, i), x))
            case 3 => y == XorBlock(EncryptBlock(k, Before(iv, c, i)), x)
            case 5 =>
              y == XorBlock(EncryptBlock(k, if i == 0 then iv else XorBlock(Before(iv, c, i), Before(iv, p, i))), x)
            case _ => y == XorBlock(EncryptBlock(k, Counter(iv, i)), x)
  {
    hide EncryptBlock, XorBlock, Counter;
    if i > 0 {
      assert Before(iv, c, i) == BlockAt(c, i - 1) && Before(iv, p, i) == BlockAt(p, i - 1);
      if mode == MODE_OFB {
        XorTwice(OfbStream(k, iv, i - 1), BlockAt(p, i - 1));
      }
    }
  }

  lemma XorCommutes(a: Block, b: Block)
    ensures XorBlock(a, b) == XorBlock(b, a)
  {
  }

  lemma {:induction false} BlocksUndone(k: Keys, mode: int, iv: Block, p: seq<bv8>, n: nat, m: nat)
    requires k.Valid() && Supported(mode) && |p| == 16 * n && m <= n
    ensures OutBlocks(k, Decrypting, mode, iv, OutBlocks(k, Encrypting, mode, iv, p, n), m) == p[..16 * m]
    decreases m
  {
    hide OutBlock;
    if m > 0 {
      var c := OutBlocks(k, Encrypting, mode, iv, p, n);
      forall j | 0 <= j <= m - 1 ensures BlockAt(c, j) == OutBlock(k, Encrypting, mode, iv, p, j) {
        BlockAtOut(k, Encrypting, mode, iv, p, n, j);
      }
      BlockUndone(k, mode, iv, p, c, m - 1);
      BlocksUndone(k, mode, iv, p, n, m - 1);
      assert p[..16 * m] == p[..16 * (m - 1)] + BlockAt(p, m - 1);
    }
  }

  // For every supported mode, key, IV and whole number of blocks.
  lemma DecryptionUndoesEncryption(k: Keys, mode: int, iv: Block, p: seq<bv8>)
    requires k.Valid() && Supported(mode) && |p| % 16 == 0
    ensures var n := |p| / 16;
            OutBlocks(k, Decrypting, mode, iv, OutBlocks(k, Encrypting, mode, iv, p, n), n) == p
  {
    var n := |p| / 16;
    BlocksUndone(k, mode, iv, p, n, n);
    assert p[..16 * n] == p;
  }

  // ----- the loops of block_encrypt and block_decrypt -----

  lemma {:induction false} CarryStep(b: seq<bv8>, j: nat, tail: seq<bv8>, x: bv8)
    requires j < |b| && x == b[j] + 1
    ensures Increment(b[..j + 1]) + tail == (if x == 0 then Increment(b[..j]) else b[..j]) + ([x] + tail)
  {
    assert b[..j + 1][..j] == b[..j];
    assert b[..j + 1][j] == b[j];
    if x != 0 {
      assert (b[..j] + [x]) + tail == b[..j] + ([x] + tail);
    } else {
      assert (Increment(b[..j]) + [x]) + tail == Increment(b[..j]) + ([x] + tail);
    }
  }

  method IncrementInPlace(block: array<bv8>)
    requires block.Length == 16
    modifies block
    ensures block[..] == Increment(old(block[..]))
  {
    hide Increment;
    ghost var b := block[..];
    assert b[..16] == b;
    block[15] := block[15] + 1;
    var carry := block[15] == 0;
    CarryStep(b, 15, [], block[15]);
    assert Increment(b) + [] == Increment(b);
    assert block[15..] == [block[15]] + [];
    var j := 14;
    while j >= 0 && carry
      invariant -1 <= j <= 14
      invariant block[..j + 1] == b[..j + 1]
      invariant Increment(b) == (if carry then Increment(b[..j + 1]) else b[..j + 1]) + block[j + 1..]
    {
      ghost var tail := block[j + 1..];
      block[j] := block[j] + 1;
      carry := block[j] == 0;
      CarryStep(b, j, tail, block[j]);
      assert block[j..] == [block[j]] + tail;
      j := j - 1;
    }
    if carry {
      IncrementEmpty();
      assert block[0..] == block[..];
    } else {
      assert block[..j + 1] + block[j + 1..] == block[..];
    }
  }

  lemma IncrementEmpty()
    ensures Increment([]) == []
  {
  }

  // block[j] ^= input[at + j]
  method XorIn(block: array<bv8>, input: array<bv8>, at: nat)
    requires block.Length == 16 && at + 16 <= input.Length && block != input
    modifies block
    ensures block[..] == XorBlock(old(block[..]), input[at..at + 16])
  {
    hide Gf256.Add;
    for j := 0 to 16
      invariant forall n | 0 <= n < 16 ::
        block[n] == if n < j then Gf256.Add(old(block[n]), input[at + n]) else old(block[n])
    {
      block[j] := Gf256.Add(block[j], input[at + j]);
    }
  }

  lemma PutByByte(out: seq<bv8>, was: seq<bv8>, to: nat, b: Block)
    requires to + 16 <= |out| == |was|
    requires forall m | 0 <= m < |out| :: out[m] == if to <= m < to + 16 then b[m - to] else was[m]
    ensures BlockPut(out, was, to, b)
  {
    forall n | 0 <= n < 16 ensures out[to..to + 16][n] == b[n] {
      assert to + n - to == n;
    }
  }

  // output[to + j] = block[j] ^ input[at + j]
  method XorOut(block: array<bv8>, input: array<bv8>, at: nat, output: array<bv8>, to: nat)
    requires block.Length == 16 && at + 16 <= input.Length && to + 16 <= output.Length
    requires output != input && output != block
    modifies output
    ensures BlockPut(output[..], old(output[..]), to, XorBlock(block[..], input[at..at + 16]))
  {
    hide Gf256.Add, BlockPut;
    ghost var b := XorBlock(block[..], input[at..at + 16]);
    for j := 0 to 16
      invariant forall m | 0 <= m < output.Length ::
        output[m] == if to <= m < to + j then b[m - to] else old(output[m])
    {
      output[to + j] := Gf256.Add(block[j], input[at + j]);
    }
    PutByByte(output[..], old(output[..]), to, b);
  }

  method CopyBlock(source: array<bv8>, at: nat, target: array<bv8>, to: nat)
    requires at + 16 <= source.Length && to + 16 <= target.Length && source != target
    modifies target
    ensures BlockPut(target[..], old(target[..]), to, source[at..at + 16])
  {
    hide BlockPut;
    ghost var b := source[at..at + 16];
    for j := 0 to 16
      invariant forall m | 0 <= m < target.Length ::
        target[m] == if to <= m < to + j then b[m - to] else old(target[m])
    {
      target[to + j] := source[at + j];
    }
    PutByByte(target[..], old(target[..]), to, b);
  }

  lemma PutWhole(out: seq<bv8>, was: seq<bv8>, b: Block)
    requires |out| == 16 && BlockPut(out, was, 0, b)
    ensures out == b
  {
    assert out[0..16] == out;
  }

  // The output holds the first i blocks and is otherwise as it was.
  ghost predicate Progress(k: Keys, d: Direction, mode: int, iv: Block, x: seq<bv8>, i: nat, out: seq<bv8>,
                           was: seq<bv8>)
    requires k.Valid() && Supported(mode)
  {
    && 16 * i <= |x|
    && 16 * i <= |out| == |was|
    && out[..16 * i] == OutBlocks(k, d, mode, iv, x, i)
    && out[16 * i..] == was[16 * i..]
  }

  lemma ProgressStep(k: Keys, d: Direction, mode: int, iv: Block, x: seq<bv8>, i: nat, out: seq<bv8>, now: seq<bv8>,
                     was: seq<bv8>)
    requires k.Valid() && Supported(mode)
    requires Progress(k, d, mode, iv, x, i, out, was) && 16 * i + 16 <= |x|
    requires BlockPut(now, out, 16 * i, OutBlock(k, d, mode, iv, x, i))
    ensures Progress(k, d, mode, iv, x, i + 1, now, was)
  {
    hide OutBlock;
    assert now[..16 * (i + 1)] == now[..16 * i] + now[16 * i..16 * i + 16];
    assert now[16 * (i + 1)..] == out[16 * i..][16..];
    assert was[16 * (i + 1)..] == was[16 * i..][16..];
  }

  lemma ProgressStart(k: Keys, d: Direction, mode: int, iv: Block, x: seq<bv8>, out: seq<bv8>)
    requires k.Valid() && Supported(mode)
    ensures Progress(k, d, mode, iv, x, 0, out, out)
  {
  }

  ghost predicate Buffers(c: RijndaelContext, input: array<bv8>, nblocks: nat, output: array<bv8>)
    reads c, c.keys, c.ikeys
  {
    c.Ready() && input != output && 16 * nblocks <= input.Length && 16 * nblocks <= output.Length
  }

  method EcbBlocks(c: RijndaelContext, d: Direction, ghost iv: Block, input: array<bv8>, nblocks: nat,
                   output: array<bv8>)
    requires Buffers(c, input, nblocks, output)
    modifies output
    ensures Progress(c.View(), d, MODE_ECB, iv, input[..], nblocks, output[..], old(output[..]))
  {
    hide EncryptBlock, DecryptBlock, BlockPut, Progress, IsInverseSchedule, XorBlock;
    ghost var k, x, was := c.View(), input[..], output[..];
    ProgressStart(k, d, MODE_ECB, iv, x, was);
    for i := 0 to nblocks
      invariant Progress(k, d, MODE_ECB, iv, x, i, output[..], was)
    {
      ghost var out := output[..];
      assert input[16 * i..16 * i + 16] == BlockAt(x, i);
      if d == Encrypting {
        c.Encrypt(input, 16 * i, output, 16 * i);
      } else {
        c.Decrypt(input, 16 * i, output, 16 * i);
      }
      ProgressStep(k, d, MODE_ECB, iv, x, i, out, output[..], was);
    }
  }

  // One block encrypted from `source` into `block`, which may be the same buffer.
  method EncryptWhole(c: RijndaelContext, source: array<bv8>, block: array<bv8>)
    requires c.Ready() && source.Length == 16 && block.Length == 16
    modifies block
    ensures block[..] == EncryptBlock(c.View(), old(source[..]))
  {
    hide EncryptBlock, BlockPut;
    assert source[0..16] == source[..];
    ghost var k, was, b := c.View(), block[..], source[..];
    c.Encrypt(source, 0, block, 0);
    PutWhole(block[..], was, EncryptBlock(k, b));
  }

  method EncryptXored(c: RijndaelContext, block: array<bv8>, input: array<bv8>, at: nat)
    requires c.Ready() && block.Length == 16 && block != input && at + 16 <= input.Length
    modifies block
    ensures block[..] == EncryptBlock(c.View(), XorBlock(old(block[..]), input[at..at + 16]))
    ensures block[0..16] == block[..]
  {
    hide EncryptBlock, BlockPut, IsInverseSchedule, XorBlock;
    XorIn(block, input, at);
    EncryptWhole(c, block, block);
    assert block[0..16] == block[..];
  }

  method CbcEncrypt(c: RijndaelContext, iv: Block, input: array<bv8>, nblocks: nat, output: array<bv8>)
    requires Buffers(c, input, nblocks, output)
    modifies output
    ensures Progress(c.View(), Encrypting, MODE_CBC, iv, input[..], nblocks, output[..], old(output[..]))
  {
    hide EncryptBlock, DecryptBlock, BlockPut, Progress, IsInverseSchedule, XorBlock;
    ghost var k, x, was := c.View(), input[..], output[..];
    var block := new bv8[16](j requires 0 <= j < 16 => iv[j]);
    ProgressStart(k, Encrypting, MODE_CBC, iv, x, was);
    for i := 0 to nblocks
      invariant Progress(k, Encrypting, MODE_CBC, iv, x, i, output[..], was)
      invariant block[..] == if i == 0 then iv else CbcBlock(k, iv, x, i - 1)
    {
      ghost var out := output[..];
      assert input[16 * i..16 * i + 16] == BlockAt(x, i);
      EncryptXored(c, block, input, 16 * i);
      CopyBlock(block, 0, output, 16 * i);
      ProgressStep(k, Encrypting, MODE_CBC, iv, x, i, out, output[..], was);
    }
  }

  // The first block is XORed with the IV, each later one with the ciphertext block before it.
  method CbcDecrypt(c: RijndaelContext, iv: Block, input: array<bv8>, nblocks: nat, output: array<bv8>)
    requires Buffers(c, input, nblocks, output) && nblocks > 0
    modifies output
    ensures Progress(c.View(), Decrypting, MODE_CBC, iv, input[..], nblocks, output[..], old(output[..]))
  {
    hide EncryptBlock, DecryptBlock, BlockPut, Progress, IsInverseSchedule, XorBlock;
    ghost var k, x, was := c.View(), input[..], output[..];
    var block, first := new bv8[16], new bv8[16](j requires 0 <= j < 16 => iv[j]);
    ghost var b := block[..];
    ProgressStart(k, Decrypting, MODE_CBC, iv, x, was);
    assert input[0..16] == BlockAt(x, 0);
    c.Decrypt(input, 0, block, 0);
    PutWhole(block[..], b, DecryptBlock(k, BlockAt(x, 0)));
    assert first[0..16] == iv;
    XorOut(block, first, 0, output, 0);
    ProgressStep(k, Decrypting, MODE_CBC, iv, x, 0, was, output[..], was);
    for i := 1 to nblocks
      invariant Progress(k, Decrypting, MODE_CBC, iv, x, i, output[..], was)
    {
      ghost var out := output[..];
      assert input[16 * i..16 * i + 16] == BlockAt(x, i);
      assert input[16 * (i - 1)..16 * (i - 1) + 16] == BlockAt(x, i - 1);
      b := block[..];
      c.Decrypt(input, 16 * i, block, 0);
      PutWhole(block[..], b, DecryptBlock(k, BlockAt(x, i)));
      XorOut(block, input, 16 * (i - 1), output, 16 * i);
      ProgressStep(k, Decrypting, MODE_CBC, iv, x, i, out, output[..], was);
    }
  }

  method CfbEncrypt(c: RijndaelContext, iv: Block, input: array<bv8>, nblocks: nat, output: array<bv8>)
    requires Buffers(c, input, nblocks, output)
    modifies output
    ensures Progress(c.View(), Encrypting, MODE_CFB, iv, input[..], nblocks, output[..], old(output[..]))
  {
    hide EncryptBlock, DecryptBlock, BlockPut, Progress, IsInverseSchedule, XorBlock;
    ghost var k, x, was := c.View(), input[..], output[..];
    var block := new bv8[16](j requires 0 <= j < 16 => iv[j]);
    ProgressStart(k, Encrypting, MODE_CFB, iv, x, was);
    for i := 0 to nblocks
      invariant Progress(k, Encrypting, MODE_CFB, iv, x, i, output[..], was)
      invariant block[..] == if i == 0 then iv else CfbBlock(k, iv, x, i - 1)
    {
      ghost var out := output[..];
      assert input[16 * i..16 * i + 16] == BlockAt(x, i);
      EncryptWhole(c, block, block);
      XorIn(block, input, 16 * i);
      assert block[0..16] == block[..];
      CopyBlock(block, 0, output, 16 * i);
      ProgressStep(k, Encrypting, MODE_CFB, iv, x, i, out, output[..], was);
    }
  }

  method CfbDecrypt(c: RijndaelContext, iv: Block, input: array<bv8>, nblocks: nat, output: array<bv8>)
    requires Buffers(c, input, nblocks, output)
    modifies output
    ensures Progress(c.View(), Decrypting, MODE_CFB, iv, input[..], nblocks, output[..], old(output[..]))
  {
    hide EncryptBlock, DecryptBlock, BlockPut, Progress, IsInverseSchedule, XorBlock;
    ghost var k, x, was := c.View(), input[..], output[..];
    var block := new bv8[16](j requires 0 <= j < 16 => iv[j]);
    ProgressStart(k, Decrypting, MODE_CFB, iv, x, was);
    for i := 0 to nblocks
      invariant Progress(k, Decrypting, MODE_CFB, iv, x, i, output[..], was)
      invariant block[..] == if i == 0 then iv else BlockAt(x, i - 1)
    {
      ghost var out := output[..];
      assert input[16 * i..16 * i + 16] == BlockAt(x, i);
      EncryptWhole(c, block, block);
      XorOut(block, input, 16 * i, output, 16 * i);
      ghost var b := block[..];
      CopyBlock(input, 16 * i, block, 0);
      PutWhole(block[..], b, BlockAt(x, i));
      ProgressStep(k, Decrypting, MODE_CFB, iv, x, i, out, output[..], was);
    }
  }

  // Decryption is the same loop.
  method OfbBlocks(c: RijndaelContext, ghost d: Direction, iv: Block, input: array<bv8>, nblocks: nat,
                   output: array<bv8>)
    requires Buffers(c, input, nblocks, output)
    modifies output
    ensures Progress(c.View(), d, MODE_OFB, iv, input[..], nblocks, output[..], old(output[..]))
  {
    hide EncryptBlock, DecryptBlock, BlockPut, Progress, IsInverseSchedule, XorBlock;
    ghost var k, x, was := c.View(), input[..], output[..];
    var block := new bv8[16](j requires 0 <= j < 16 => iv[j]);
    ProgressStart(k, d, MODE_OFB, iv, x, was);
    for i := 0 to nblocks
      invariant Progress(k, d, MODE_OFB, iv, x, i, output[..], was)
      invariant block[..] == if i == 0 then iv else OfbStream(k, iv, i - 1)
    {
      ghost var out := output[..];
      assert input[16 * i..16 * i + 16] == BlockAt(x, i);
      EncryptWhole(c, block, block);
      XorOut(block, input, 16 * i, output, 16 * i);
      ProgressStep(k, d, MODE_OFB, iv, x, i, out, output[..], was);
    }
  }

  method CtrBlocks(c: RijndaelContext, ghost d: Direction, iv: Block, input: array<bv8>, nblocks: nat,
                   output: array<bv8>)
    requires Buffers(c, input, nblocks, output)
    modifies output
    ensures Progress(c.View(), d, MODE_CTR, iv, input[..], nblocks, output[..], old(output[..]))
  {
    hide EncryptBlock, DecryptBlock, BlockPut, Progress, Increment;
    ghost var k, x, was := c.View(), input[..], output[..];
    var block, block2 := new bv8[16](j requires 0 <= j < 16 => iv[j]), new bv8[16];
    ProgressStart(k, d, MODE_CTR, iv, x, was);
    for i := 0 to nblocks
      invariant Progress(k, d, MODE_CTR, iv, x, i, output[..], was)
      invariant block[..] == Counter(iv, i)
    {
      ghost var out := output[..];
      assert input[16 * i..16 * i + 16] == BlockAt(x, i);
      EncryptWhole(c, block, block2);
      XorOut(block2, input, 16 * i, output, 16 * i);
      ProgressStep(k, d, MODE_CTR, iv, x, i, out, output[..], was);
      IncrementInPlace(block);
    }
  }

  // What either entry point does to the output buffer; an unsupported mode does nothing.
  ghost predicate Processed(k: Keys, d: Direction, mode: int, iv: Block, x: seq<bv8>, n: nat, out: seq<bv8>,
                            was: seq<bv8>)
    requires k.Valid()
  {
    if Supported(mode) then Progress(k, d, mode, iv, x, n, out, was) else out == was
  }

  method BlockEncrypt(c: RijndaelContext, mode: int, input: array<bv8>, inputlen: nat, output: array<bv8>, iv: Block)
    requires Buffers(c, input, inputlen / 16, output)
    modifies output
    ensures Processed(c.View(), Encrypting, mode, iv, input[..], inputlen / 16, output[..], old(output[..]))
  {
    hide EncryptBlock, DecryptBlock, Progress;
    var nblocks := inputlen / BLOCKSIZE;
    if mode == MODE_ECB {
      EcbBlocks(c, Encrypting, iv, input, nblocks, output);
    } else if mode == MODE_CBC {
      CbcEncrypt(c, iv, input, nblocks, output);
    } else if mode == MODE_CFB {
      CfbEncrypt(c, iv, input, nblocks, output);
    } else if mode == MODE_OFB {
      OfbBlocks(c, Encrypting, iv, input, nblocks, output);
    } else if mode == MODE_CTR {
      CtrBlocks(c, Encrypting, iv, input, nblocks, output);
    }
  }

  method BlockDecrypt(c: RijndaelContext, mode: int, input: array<bv8>, inputlen: nat, output: array<bv8>, iv: Block)
    requires Buffers(c, input, inputlen / 16, output) && (mode == MODE_CBC ==> inputlen >= 16)
    modifies output
    ensures Processed(c.View(), Decrypting, mode, iv, input[..], inputlen / 16, output[..], old(output[..]))
  {
    hide EncryptBlock, DecryptBlock, Progress;
    var nblocks := inputlen / BLOCKSIZE;
    if mode == MODE_ECB {
      EcbBlocks(c, Decrypting, iv, input, nblocks, output);
    } else if mode == MODE_CBC {
      CbcDecrypt(c, iv, input, nblocks, output);
    } else if mode == MODE_CFB {
      CfbDecrypt(c, iv, input, nblocks, output);
    } else if mode == MODE_OFB {
      OfbBlocks(c, Decrypting, iv, input, nblocks, output);
    } else if mode == MODE_CTR {
      CtrBlocks(c, Decrypting, iv, input, nblocks, output);
    }
  }
}
