/** Bytes, byte strings and the few generic datatypes shared by every component. */
module Bytes {

  type byte = b: int | 0 <= b < 256

  type bytes = seq<byte>

  const U32_MAX: nat := 0xFFFF_FFFF
  const U64_MAX: nat := 0xFFFF_FFFF_FFFF_FFFF

  const CR: byte := 13
  const LF: byte := 10

  datatype Option<+T> = None | Some(value: T)

  datatype Result<+T, +E> = Ok(value: T) | Err(error: E)

  /** The bytes of an ASCII literal (any other character becomes a question mark). */
  function B(s: string): (r: bytes)
    ensures |r| == |s|
    ensures forall i :: 0 <= i < |s| && s[i] < 128 as char ==> r[i] == s[i] as int
  {
    seq(|s|, i requires 0 <= i < |s| => if s[i] < 128 as char then s[i] as int else 63)
  }

  function Flatten(pieces: seq<bytes>): (r: bytes) {
    if pieces == [] then [] else pieces[0] + Flatten(pieces[1..])
  }

  lemma {:induction false} FlattenConcat(a: seq<bytes>, b: seq<bytes>)
    ensures Flatten(a + b) == Flatten(a) + Flatten(b)
  {
    if a == [] {
      assert a + b == b;
    } else {
      assert (a + b)[1..] == a[1..] + b;
      FlattenConcat(a[1..], b);
    }
  }

  lemma ConcatAssoc<T>(a: seq<T>, b: seq<T>, c: seq<T>)
    ensures a + (b + c) == (a + b) + c
  {
  }

  /** The low `k` bytes of `n`, most significant first. */
  function PutBe(n: nat, k: nat): (r: bytes)
    ensures |r| == k
  {
    if k == 0 then [] else PutBe(n / 256, k - 1) + [n % 256]
  }

  function GetBe(b: bytes): nat {
    if b == [] then 0 else GetBe(b[..|b| - 1]) * 256 + b[|b| - 1]
  }

  function Radix(k: nat): nat {
    if k == 0 then 1 else Radix(k - 1) * 256
  }

  lemma RadixU32()
    ensures Radix(4) == U32_MAX + 1
  {
    assert Radix(2) == 0x1_0000;
    assert Radix(3) == 0x100_0000;
  }

  lemma {:induction false} GetBeBound(b: bytes)
    ensures GetBe(b) < Radix(|b|)
  {
    if b != [] {
      GetBeBound(b[..|b| - 1]);
    }
  }

  lemma {:induction false} GetPutBe(n: nat, k: nat)
    requires n < Radix(k)
    ensures GetBe(PutBe(n, k)) == n
  {
    if k > 0 {
      GetPutBe(n / 256, k - 1);
      assert PutBe(n, k)[..k - 1] == PutBe(n / 256, k - 1);
    }
  }

  lemma {:induction false} PutGetBe(b: bytes)
    ensures PutBe(GetBe(b), |b|) == b
  {
    if b != [] {
      PutGetBe(b[..|b| - 1]);
      assert GetBe(b) / 256 == GetBe(b[..|b| - 1]);
    }
  }

  /** Big-endian 32-bit encoding (`put_u32`). */
  function PutU32(n: nat): (r: bytes)
    requires n <= U32_MAX
    ensures |r| == 4
  {
    PutBe(n, 4)
  }

  /** Big-endian 32-bit decoding (`get_u32`). */
  function GetU32(b: bytes): (n: nat)
    requires |b| == 4
    ensures n <= U32_MAX
  {
    GetBeBound(b);
    RadixU32();
    GetBe(b)
  }

  lemma GetPutU32(n: nat)
    requires n <= U32_MAX
    ensures GetU32(PutU32(n)) == n
  {
    RadixU32();
    GetPutBe(n, 4);
  }

  lemma PutGetU32(b: bytes)
    requires |b| == 4
    ensures PutU32(GetU32(b)) == b
  {
    PutGetBe(b);
  }

  lemma BigEndian(n: nat)
    requires n <= U32_MAX
    ensures var b := PutU32(n);
            b[0] as int * 16777216 + b[1] as int * 65536 + b[2] as int * 256 + b[3] as int == n
  {
    var b := PutU32(n);
    assert b[..3] == PutBe(n / 256, 3);
    assert b[..3][..2] == PutBe(n / 256 / 256, 2);
    assert b[..3][..2][..1] == PutBe(n / 256 / 256 / 256, 1);
    assert PutBe(n / 256 / 256 / 256, 1) == PutBe(n / 256 / 256 / 256 / 256, 0) + [n / 256 / 256 / 256 % 256];
    assert n / 256 / 256 / 256 < 256;
    assert b[3] == n % 256 && b[2] == n / 256 % 256 && b[1] == n / 256 / 256 % 256 && b[0] == n / 256 / 256 / 256;
  }
}
