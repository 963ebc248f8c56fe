/** Types shared by the other modules. */
module Common {
  datatype Option<+T> = None | Some(value: T)

  const TWO31 := 0x8000_0000
  const TWO32 := 0x1_0000_0000
  const TWO64 := 0x1_0000_0000_0000_0000

  // A byte string. C strings are modelled by their bytes before the terminating NUL.
  type Bytes = seq<bv8>

  // A C string's bytes contain no NUL.
  predicate IsCString(s: Bytes) { forall i | 0 <= i < |s| :: s[i] != 0 }

  // The bytes of a buffer before its first NUL.
  function StrLen(buf: Bytes): (n: nat)
    ensures n <= |buf|
    ensures forall i | 0 <= i < n :: buf[i] != 0
    ensures n < |buf| ==> buf[n] == 0
  {
    if buf == [] || buf[0] == 0 then 0 else 1 + StrLen(buf[1..])
  }

  function CStr(buf: Bytes): (s: Bytes)
    ensures IsCString(s)
  {
    buf[..StrLen(buf)]
  }

  lemma StrLenUnique(buf: Bytes, n: nat)
    requires n <= |buf| && (forall i | 0 <= i < n :: buf[i] != 0) && (n < |buf| ==> buf[n] == 0)
    ensures StrLen(buf) == n
  {
  }

  function Zeros(n: nat): (z: Bytes)
    ensures |z| == n && forall i | 0 <= i < n :: z[i] == 0
  {
    seq(n, _ => 0)
  }

  lemma ByteAndBack(x: bv8)
    ensures (x as nat) as bv8 == x
  {
  }

  lemma ByteSuccessor(x: bv8)
    ensures (x + 1) as nat == if x + 1 == 0 then 0 else x as nat + 1
    ensures x + 1 == 0 ==> x as nat == 255
  {
  }

  // Every small number is a byte.
  lemma {:induction false} ByteFor(m: nat) returns (x: bv8)
    requires m < 256
    ensures x as nat == m && m as bv8 == x
  {
    x := 0;
    if m > 0 {
      x := ByteFor(m - 1);
      ByteSuccessor(x);
      x := x + 1;
    }
    ByteAndBack(x);
  }

  lemma ByteOfSmall(m: nat)
    requires m < 256
    ensures (m as bv8) as nat == m
  {
    var x := ByteFor(m);
  }

  // The number that bytes denote, most significant first.
  function Value(b: Bytes): nat {
    if b == [] then 0 else Value(b[..|b| - 1]) * 256 + b[|b| - 1] as nat
  }

  function Concat(chunks: seq<Bytes>): Bytes {
    if chunks == [] then [] else Concat(chunks[..|chunks| - 1]) + chunks[|chunks| - 1]
  }

  lemma ConcatStep(chunks: seq<Bytes>, i: nat)
    requires i < |chunks|
    ensures Concat(chunks[..i + 1]) == Concat(chunks[..i]) + chunks[i]
  {
    assert chunks[..i + 1][..i] == chunks[..i];
  }

  lemma {:induction false} ConcatFirst(x: Bytes, rest: seq<Bytes>)
    ensures Concat([x] + rest) == x + Concat(rest)
  {
    var all := [x] + rest;
    if rest == [] {
      assert all[..0] == [];
    } else {
      assert all[..|all| - 1] == [x] + rest[..|rest| - 1];
      ConcatFirst(x, rest[..|rest| - 1]);
    }
  }

  // memcpy into part of a fixed-size buffer.
  method CopyInto(target: array<bv8>, at: nat, data: Bytes)
    requires at + |data| <= target.Length
    modifies target
    ensures target[..] == old(target[..at]) + data + old(target[at + |data|..])
  {
    for i := 0 to |data|
      invariant target[..at] == old(target[..at])
      invariant target[at..at + i] == data[..i]
      invariant target[at + |data|..] == old(target[at + |data|..])
    {
      target[at + i] := data[i];
    }
    assert target[..] == target[..at] + target[at..at + |data|] + target[at + |data|..];
    assert data[..|data|] == data;
  }
}
