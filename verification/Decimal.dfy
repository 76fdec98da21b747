/** Decimal text of natural numbers and Rust's `str::parse::<u64>`. */
module Decimal {
  import opened Bytes

  predicate IsDigit(b: byte) {
    48 <= b <= 57
  }

  predicate AllDigits(s: bytes) {
    forall i :: 0 <= i < |s| ==> IsDigit(s[i])
  }

  function Digits(n: nat): (r: bytes)
    ensures |r| > 0 && AllDigits(r)
  {
    if n < 10 then [48 + n] else Digits(n / 10) + [48 + n % 10]
  }

  /** The number a digit string denotes. */
  function Value(s: bytes): nat
    requires AllDigits(s)
  {
    if s == [] then 0 else Value(s[..|s| - 1]) * 10 + (s[|s| - 1] as int - 48)
  }

  /** `str::parse::<u64>`: an optional plus sign, at least one digit, no overflow. */
  function ParseU64(s: bytes): (r: Option<nat>)
    ensures r.Some? ==> r.value <= U64_MAX
  {
    var d := if s != [] && s[0] == 43 then s[1..] else s;
    if d != [] && AllDigits(d) && Value(d) <= U64_MAX then Some(Value(d)) else None
  }

  lemma {:induction false} ValueOfDigits(n: nat)
    ensures Value(Digits(n)) == n
  {
    if n >= 10 {
      var r := Digits(n);
      assert r[..|r| - 1] == Digits(n / 10);
      ValueOfDigits(n / 10);
    }
  }

  /** Printing then parsing is the identity exactly on the u64 range. */
  lemma ParseDigits(n: nat)
    ensures ParseU64(Digits(n)) == if n <= U64_MAX then Some(n) else None
  {
    ValueOfDigits(n);
    assert IsDigit(Digits(n)[0]);
  }

  function Pow10(n: nat): nat {
    if n == 0 then 1 else 10 * Pow10(n - 1)
  }

  /** The place-value law: each digit counts for its own power of ten. */
  lemma {:induction false} ValueConcat(a: bytes, b: bytes)
    requires AllDigits(a) && AllDigits(b)
    ensures AllDigits(a + b) && Value(a + b) == Value(a) * Pow10(|b|) + Value(b)
    decreases |b|
  {
    if b == [] {
      assert a + b == a;
    } else {
      var init, last := b[..|b| - 1], b[|b| - 1];
      ValueConcat(a, init);
      assert (a + b)[..|a + b| - 1] == a + init;
      Shifted(Value(a), Pow10(|init|), Value(init), last as int - 48);
    }
  }

  lemma Shifted(x: nat, p: nat, v: nat, d: int)
    ensures (x * p + v) * 10 + d == x * (10 * p) + (v * 10 + d)
  {
    assert x * p * 10 == x * (10 * p);
  }

  /** A single digit stands for its distance from the character 0. */
  lemma ValueOfOne(d: byte)
    requires IsDigit(d)
    ensures AllDigits([d]) && Value([d]) == d as int - '0' as int
  {
    assert [d][..0] == [];
  }

  /** One plus sign in front of the digits is allowed, and nothing else but digits. */
  lemma ParseSigns(s: bytes)
    ensures AllDigits(s) ==> ParseU64(['+' as int] + s) == ParseU64(s)
    ensures (exists i :: 0 <= i < |s| && !IsDigit(s[i]) && !(i == 0 && s[0] == '+' as int)) ==> ParseU64(s) == None
  {
    hide Value;
    assert (['+' as int] + s)[1..] == s;
    if i :| 0 <= i < |s| && !IsDigit(s[i]) && !(i == 0 && s[0] == '+' as int) {
      assert !AllDigits(s);
      assert i > 0 ==> s[1..][i - 1] == s[i];
    }
  }
}
