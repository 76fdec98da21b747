/** Percent-encoding of `grpc-message` with the encode set of status.rs. */
module Percent {
  import opened Bytes

  const PERCENT: byte := 37

  /** The encode set: controls, space and the listed punctuation; every non-ASCII byte is always encoded. */
  predicate InEncodeSet(b: byte) {
    b < 0x20 || b >= 0x7F || b in {32, 34, 35, 60, 62, 96, 63, 123, 125}
  }

  function HexDigit(v: nat): byte
    requires v < 16
  {
    if v < 10 then 48 + v else 55 + v
  }

  function HexValue(b: byte): (r: Option<nat>)
    ensures r.Some? ==> r.value < 16
  {
    if 48 <= b <= 57 then Some(b as int - 48)
    else if 65 <= b <= 70 then Some(b as int - 55)
    else if 97 <= b <= 102 then Some(b as int - 87)
    else None
  }

  function Escaped(b: byte): bytes {
    [PERCENT, HexDigit(b / 16), HexDigit(b % 16)]
  }

  function Encode(s: bytes): (r: bytes) {
    if s == [] then []
    else (if InEncodeSet(s[0]) then Escaped(s[0]) else [s[0]]) + Encode(s[1..])
  }

  /** Whether `s` starts with a percent sign and two hexadecimal digits. */
  predicate StartsEscape(s: bytes) {
    |s| >= 3 && s[0] == PERCENT && HexValue(s[1]).Some? && HexValue(s[2]).Some?
  }

  function EscapeValue(s: bytes): byte
    requires StartsEscape(s)
  {
    HexValue(s[1]).value * 16 + HexValue(s[2]).value
  }

  function Decode(s: bytes): (r: bytes)
    ensures |r| <= |s|
  {
    if s == [] then []
    else if StartsEscape(s) then [EscapeValue(s)] + Decode(s[3..])
    else [s[0]] + Decode(s[1..])
  }

  predicate NoEscape(s: bytes) {
    forall i :: 0 <= i < |s| ==> !StartsEscape(s[i..])
  }

  /** Bytes `HeaderValue` accepts. */
  predicate HeaderSafe(s: bytes) {
    forall i :: 0 <= i < |s| ==> (s[i] >= 32 && s[i] != 127) || s[i] == 9
  }

  /** An encoded text holds only visible ASCII characters, which every header value may hold. */
  lemma {:induction false} EncodeHeaderSafe(s: bytes)
    ensures HeaderSafe(Encode(s))
    ensures forall i :: 0 <= i < |Encode(s)| ==> 33 <= Encode(s)[i] <= 126
  {
    if s != [] {
      EncodeHeaderSafe(s[1..]);
    }
  }

  lemma EscapedDecodes(b: byte, rest: bytes)
    ensures StartsEscape(Escaped(b) + rest) && EscapeValue(Escaped(b) + rest) == b
  {
  }

  /** The first byte of an encoding is a hexadecimal digit exactly when the first byte of the text is. */
  lemma EncodeKeepsHex(s: bytes)
    ensures Encode(s) == [] <==> s == []
    ensures s != [] ==> (HexValue(Encode(s)[0]).Some? <==> HexValue(s[0]).Some?)
    ensures s != [] && HexValue(s[0]).Some? ==> Encode(s) == [s[0]] + Encode(s[1..])
  {
  }

  /** Encoding leaves a percent sign followed by two hexadecimal digits intact, and creates none. */
  lemma EncodeKeepsEscapes(s: bytes)
    requires s != [] && s[0] == PERCENT
    ensures Encode(s) == [PERCENT] + Encode(s[1..])
    ensures StartsEscape(Encode(s)) <==> StartsEscape(s)
    ensures StartsEscape(s) ==> Encode(s) == s[..3] + Encode(s[3..])
  {
    hide HexValue, Escaped;
    EncodeKeepsHex(s[1..]);
    if |s| > 1 && HexValue(s[1]).Some? {
      EncodeKeepsHex(s[2..]);
      assert s[1..][1..] == s[2..];
      if |s| > 2 {
        assert s[2..][1..] == s[3..];
      }
    }
  }

  /** Decoding an encoded text decodes the text itself: since the percent sign is not in the
      encode set, escapes already present in the text are undone too. */
  lemma {:induction false} DecodeEncode(s: bytes)
    ensures Decode(Encode(s)) == Decode(s)
  {
    if s == [] {
    } else if InEncodeSet(s[0]) {
      var e := Encode(s);
      EscapedDecodes(s[0], Encode(s[1..]));
      assert e[3..] == Encode(s[1..]);
      DecodeEncode(s[1..]);
    } else if s[0] == PERCENT {
      EncodeKeepsEscapes(s);
      var e := Encode(s);
      if StartsEscape(s) {
        assert e[3..] == Encode(s[3..]);
        assert EscapeValue(e) == EscapeValue(s);
        DecodeEncode(s[3..]);
      } else {
        assert e[1..] == Encode(s[1..]);
        DecodeEncode(s[1..]);
      }
    } else {
      assert Encode(s)[1..] == Encode(s[1..]);
      DecodeEncode(s[1..]);
    }
  }

  lemma {:induction false} DecodeIdentity(s: bytes)
    ensures Decode(s) == s <==> NoEscape(s)
  {
    if s == [] {
    } else if StartsEscape(s) {
      assert StartsEscape(s[0..]) by { assert s[0..] == s; }
      assert |Decode(s)| < |s|;
    } else {
      DecodeIdentity(s[1..]);
      assert Decode(s)[1..] == Decode(s[1..]);
      assert s == [s[0]] + s[1..];
      forall i | 0 <= i < |s[1..]|
        ensures s[1..][i..] == s[i + 1..]
      {
      }
      assert NoEscape(s) ==> NoEscape(s[1..]) by {
        forall i | NoEscape(s) && 0 <= i < |s[1..]|
          ensures !StartsEscape(s[1..][i..])
        {
          assert !StartsEscape(s[i + 1..]);
        }
      }
      assert NoEscape(s[1..]) ==> NoEscape(s) by {
        forall i | NoEscape(s[1..]) && 0 <= i < |s|
          ensures !StartsEscape(s[i..])
        {
          if i == 0 {
            assert s[0..] == s;
          } else {
            assert s[i..] == s[1..][i - 1..];
          }
        }
      }
    }
  }

  /** The message survives the header exactly when it contains no percent sign followed by two
      hexadecimal digits. */
  lemma MessageRoundTrip(s: bytes)
    ensures Decode(Encode(s)) == s <==> NoEscape(s)
  {
    DecodeEncode(s);
    DecodeIdentity(s);
  }

  /** A text is encoded byte by byte. */
  lemma {:induction false} EncodeConcat(a: bytes, b: bytes)
    ensures Encode(a + b) == Encode(a) + Encode(b)
  {
    hide Escaped, InEncodeSet;
    if a == [] {
      assert a + b == b;
    } else {
      assert (a + b)[1..] == a[1..] + b;
      EncodeConcat(a[1..], b);
    }
  }

  /** The value of an upper-case hexadecimal digit. */
  predicate IsHex(d: byte, v: nat) {
    if v < 10 then d == '0' as int + v else v < 16 && d == 'A' as int + (v - 10)
  }

  /** Which bytes are encoded, and as what: controls, everything from DEL on and nine marks become a
      percent sign and two upper-case hexadecimal digits; all other bytes stay. */
  lemma EncodedByte(b: byte)
    ensures var mark := b == ' ' as int || b == '"' as int || b == '#' as int || b == '<' as int || b == '>' as int
                        || b == '`' as int || b == '?' as int || b == '{' as int || b == '}' as int;
            if b < 32 || b > 126 || mark
            then |Encode([b])| == 3 && Encode([b])[0] == '%' as int
                 && IsHex(Encode([b])[1], b as int / 16) && IsHex(Encode([b])[2], b as int % 16)
            else Encode([b]) == [b]
  {
    assert [b][1..] == [];
    assert Encode([b]) == (if InEncodeSet(b) then Escaped(b) else [b]) + [];
  }
}
