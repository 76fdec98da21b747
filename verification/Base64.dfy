/** Unpadded base64 with the standard alphabet (section 4 of RFC 4648): encoding writes no
    padding, decoding accepts any amount of padding up to the canonical one and rejects nonzero
    trailing bits. */
module Base64 {
  import opened Bytes

  const PAD: byte := 61

  type sextet = v: int | 0 <= v < 64

  function Symbol(v: sextet): byte {
    if v < 26 then 65 + v
    else if v < 52 then 71 + v
    else if v < 62 then v - 4
    else if v == 62 then 43
    else 47
  }

  function SymbolValue(b: byte): Option<sextet> {
    if 65 <= b <= 90 then Some(b - 65)
    else if 97 <= b <= 122 then Some(b - 71)
    else if 48 <= b <= 57 then Some(b + 4)
    else if b == 43 then Some(62)
    else if b == 47 then Some(63)
    else None
  }

  lemma SymbolInverse(v: sextet)
    ensures SymbolValue(Symbol(v)) == Some(v)
  {
  }

  lemma ValueInverse(b: byte)
    ensures SymbolValue(b).Some? ==> Symbol(SymbolValue(b).value) == b
  {
  }

  /** The standard alphabet: A-Z, a-z, 0-9, plus and slash. */
  lemma Alphabet(v: sextet)
    ensures v < 26 ==> Symbol(v) == 'A' as int + v
    ensures 26 <= v < 52 ==> Symbol(v) == 'a' as int + (v - 26)
    ensures 52 <= v < 62 ==> Symbol(v) == '0' as int + (v - 52)
    ensures v == 62 ==> Symbol(v) == '+' as int
    ensures v == 63 ==> Symbol(v) == '/' as int
  {
  }

  // Three bytes a, b, c and four 6-bit values hold the same 24 bits.

  function Sextet0(a: byte): sextet { a / 4 }

  function Sextet1(a: byte, b: byte): sextet { a % 4 * 16 + b / 16 }

  function Sextet2(b: byte, c: byte): sextet { b % 16 * 4 + c / 64 }

  function Sextet3(c: byte): sextet { c % 64 }

  function Octet0(u: sextet, v: sextet): byte { u as int * 4 + v as int / 16 }

  function Octet1(v: sextet, w: sextet): byte { v as int % 16 * 16 + w as int / 4 }

  function Octet2(w: sextet, x: sextet): byte { w as int % 4 * 64 + x as int }

  lemma OctetsInvertSextets(a: byte, b: byte, c: byte)
    ensures Octet0(Sextet0(a), Sextet1(a, b)) == a
    ensures Octet1(Sextet1(a, b), Sextet2(b, c)) == b
    ensures Octet2(Sextet2(b, c), Sextet3(c)) == c
    ensures Sextet2(0, 0) == 0 && Sextet3(0) == 0
  {
  }

  lemma SextetsInvertOctets(u: sextet, v: sextet, w: sextet, x: sextet)
    ensures Sextet0(Octet0(u, v)) == u
    ensures Sextet1(Octet0(u, v), Octet1(v, w)) == v
    ensures Sextet2(Octet1(v, w), Octet2(w, x)) == w
    ensures Sextet3(Octet2(w, x)) == x
  {
  }

  /** Read as binary numbers, three bytes and their four 6-bit values are the same. */
  lemma SameBits(a: byte, b: byte, c: byte)
    ensures Sextet0(a) as int * 262144 + Sextet1(a, b) as int * 4096 + Sextet2(b, c) as int * 64 + Sextet3(c) as int
         == a as int * 65536 + b as int * 256 + c as int
  {
  }

  /** Regroups bytes into 6-bit values, high bits first, zero-filled at the end. */
  function Sextets(s: bytes): (r: seq<sextet>) {
    if s == [] then []
    else if |s| == 1 then [Sextet0(s[0]), Sextet1(s[0], 0)]
    else if |s| == 2 then [Sextet0(s[0]), Sextet1(s[0], s[1]), Sextet2(s[1], 0)]
    else [Sextet0(s[0]), Sextet1(s[0], s[1]), Sextet2(s[1], s[2]), Sextet3(s[2])] + Sextets(s[3..])
  }

  /** Regroups 6-bit values into bytes; fails on a lone value or on nonzero trailing bits. */
  function Octets(v: seq<sextet>): (r: Option<bytes>) {
    if v == [] then Some([])
    else if |v| == 1 then None
    else if |v| == 2 then if Octet1(v[1], 0) == 0 then Some([Octet0(v[0], v[1])]) else None
    else if |v| == 3 then
      if Octet2(v[2], 0) == 0 then Some([Octet0(v[0], v[1]), Octet1(v[1], v[2])]) else None
    else
      var rest := Octets(v[4..]);
      if rest.None? then None
      else Some([Octet0(v[0], v[1]), Octet1(v[1], v[2]), Octet2(v[2], v[3])] + rest.value)
  }

  function Encode(s: bytes): (r: bytes) {
    var v := Sextets(s);
    seq(|v|, i requires 0 <= i < |v| => Symbol(v[i]))
  }

  predicate AllSymbols(s: bytes) {
    forall i :: 0 <= i < |s| ==> SymbolValue(s[i]).Some?
  }

  function Values(s: bytes): (r: seq<sextet>)
    requires AllSymbols(s)
  {
    seq(|s|, i requires 0 <= i < |s| => SymbolValue(s[i]).value)
  }

  /** The text without its trailing padding. */
  function Strip(s: bytes): (r: bytes)
    ensures |r| <= |s| && r == s[..|r|]
    ensures r != [] ==> r[|r| - 1] != PAD
    ensures forall i :: |r| <= i < |s| ==> s[i] == PAD
  {
    if s != [] && s[|s| - 1] == PAD then Strip(s[..|s| - 1]) else s
  }

  /** `DecodePaddingMode::Indifferent`: no more padding than completes the last group of four. */
  function Decode(s: bytes): (r: Option<bytes>) {
    var data := Strip(s);
    if AllSymbols(data) && |s| - |data| <= (4 - |data| % 4) % 4 then Octets(Values(data)) else None
  }

  lemma OctetsOfGroup(u: sextet, v: sextet, w: sextet, x: sextet, rest: seq<sextet>)
    requires Octets(rest).Some?
    ensures Octets([u, v, w, x] + rest)
         == Some([Octet0(u, v), Octet1(v, w), Octet2(w, x)] + Octets(rest).value)
  {
    hide Octet0, Octet1, Octet2;
    assert ([u, v, w, x] + rest)[4..] == rest;
  }

  lemma {:induction false} OctetsOfSextets(s: bytes)
    ensures Octets(Sextets(s)) == Some(s)
  {
    hide Sextet0, Sextet1, Sextet2, Sextet3, Octet0, Octet1, Octet2;
    if s == [] {
    } else if |s| == 1 {
      OctetsInvertSextets(s[0], 0, 0);
      assert s == [s[0]];
    } else if |s| == 2 {
      OctetsInvertSextets(s[0], s[1], 0);
      assert s == [s[0], s[1]];
    } else {
      OctetsInvertSextets(s[0], s[1], s[2]);
      OctetsOfSextets(s[3..]);
      OctetsOfGroup(Sextet0(s[0]), Sextet1(s[0], s[1]), Sextet2(s[1], s[2]), Sextet3(s[2]), Sextets(s[3..]));
      assert s == [s[0], s[1], s[2]] + s[3..];
    }
  }

  lemma {:induction false} SextetsOfOctets(v: seq<sextet>)
    requires Octets(v).Some?
    ensures Sextets(Octets(v).value) == v
  {
    hide Sextet0, Sextet1, Sextet2, Sextet3, Octet0, Octet1, Octet2;
    if v == [] {
    } else if |v| == 2 {
      SextetsInvertOctets(v[0], v[1], 0, 0);
      assert v == [v[0], v[1]];
    } else if |v| == 3 {
      SextetsInvertOctets(v[0], v[1], v[2], 0);
      assert v == [v[0], v[1], v[2]];
    } else {
      SextetsInvertOctets(v[0], v[1], v[2], v[3]);
      SextetsOfOctets(v[4..]);
      var r := Octets(v).value;
      assert r[3..] == Octets(v[4..]).value;
      assert v == [v[0], v[1], v[2], v[3]] + v[4..];
    }
  }

  lemma EncodeIsSymbols(s: bytes)
    ensures AllSymbols(Encode(s)) && Values(Encode(s)) == Sextets(s)
    ensures forall i :: 0 <= i < |Encode(s)| ==> 43 <= Encode(s)[i] <= 122 && Encode(s)[i] != PAD
  {
    var v := Sextets(s);
    forall i | 0 <= i < |v|
      ensures SymbolValue(Encode(s)[i]) == Some(v[i])
    {
      SymbolInverse(v[i]);
    }
  }

  /** Decoding inverts encoding on every byte string. */
  lemma DecodeEncode(s: bytes)
    ensures Decode(Encode(s)) == Some(s)
  {
    EncodeIsSymbols(s);
    OctetsOfSextets(s);
    var e := Encode(s);
    assert Strip(e) == e;
  }

  /** Encoding inverts decoding up to padding. */
  lemma EncodeDecode(s: bytes)
    requires Decode(s).Some?
    ensures Encode(Decode(s).value) == Strip(s)
  {
    var data := Strip(s);
    SextetsOfOctets(Values(data));
    forall i | 0 <= i < |data|
      ensures Symbol(Values(data)[i]) == data[i]
    {
      ValueInverse(data[i]);
    }
  }

  function Pads(k: nat): (r: bytes)
    ensures |r| == k
  {
    seq(k, _ => 61)
  }

  /** Padding may be left out in whole or in part, but there may be no more of it than completes
      three bytes. */
  lemma PaddingExactly(s: bytes, k: nat)
    ensures Decode(Encode(s) + Pads(k)) == if k <= (3 - |s| % 3) % 3 then Some(s) else None
  {
    hide Encode, Octets, Sextets;
    var e := Encode(s);
    EncodeIsSymbols(s);
    EncodedLength(s);
    StripPads(e, k);
    OctetsOfSextets(s);
  }

  lemma StripPads(e: bytes, k: nat)
    requires e != [] ==> e[|e| - 1] != PAD
    ensures Strip(e + Pads(k)) == e
  {
    hide Strip;
    var s := e + Pads(k);
    assert e != [] ==> s[|e| - 1] == e[|e| - 1];
    assert forall i :: |e| <= i < |s| ==> s[i] == PAD;
    var r := Strip(s);
    assert |r| >= |e|;
    assert |r| <= |e|;
    assert s[..|e|] == e;
  }

  lemma EncodedLength(s: bytes)
    ensures (4 - |Encode(s)| % 4) % 4 == (3 - |s| % 3) % 3
  {
    hide Sextets;
    SextetCount(s);
  }

  lemma {:induction false} SextetCount(s: bytes)
    ensures |Sextets(s)| == |s| / 3 * 4 + (if |s| % 3 == 0 then 0 else |s| % 3 + 1)
    decreases |s|
  {
    hide Sextet0, Sextet1, Sextet2, Sextet3;
    if |s| > 2 {
      SextetCount(s[3..]);
      assert |s[3..]| == |s| - 3;
    }
  }
}
