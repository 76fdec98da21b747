/** Well-formed UTF-8 (section 4 of RFC 3629), which is what a Rust `String` holds. */
module Utf8 {
  import opened Bytes

  predicate Continuation(b: byte) {
    0x80 <= b <= 0xBF
  }

  /** The second byte allowed after a three-byte or four-byte lead. */
  predicate SecondByte(lead: byte, b: byte) {
    if lead == 0xE0 then 0xA0 <= b <= 0xBF
    else if lead == 0xED then 0x80 <= b <= 0x9F
    else if lead == 0xF0 then 0x90 <= b <= 0xBF
    else if lead == 0xF4 then 0x80 <= b <= 0x8F
    else Continuation(b)
  }

  /** Length announced by a lead byte, 0 if it cannot start a character. */
  function Width(lead: byte): nat {
    if lead < 0x80 then 1
    else if 0xC2 <= lead <= 0xDF then 2
    else if 0xE0 <= lead <= 0xEF then 3
    else if 0xF0 <= lead <= 0xF4 then 4
    else 0
  }

  /** Length of the well-formed character at the head of `s`, 0 if there is none. */
  function Head(s: bytes): (n: nat)
    requires s != []
    ensures n <= |s|
  {
    var w := Width(s[0]);
    if |s| < w then 0
    else if 2 <= w && !SecondByte(s[0], s[1]) then 0
    else if 3 <= w && !Continuation(s[2]) then 0
    else if 4 <= w && !Continuation(s[3]) then 0
    else w
  }

  predicate Valid(s: bytes) {
    s == [] || (Head(s) > 0 && Valid(s[Head(s)..]))
  }

  /** Number of bytes before the first ill-formed character (`Utf8Error::valid_up_to`). */
  function ValidUpTo(s: bytes): nat {
    if s == [] || Head(s) == 0 then 0 else Head(s) + ValidUpTo(s[Head(s)..])
  }

  /** Length of the ill-formed sequence at the head of `s` (`Utf8Error::error_len`); `None` when the
      text ends inside a character. */
  function ErrorLength(s: bytes): (r: Option<nat>)
    requires s != []
    ensures r.Some? ==> 0 < r.value <= |s|
  {
    var w := Width(s[0]);
    if w < 2 then Some(1)
    else if |s| < 2 then None
    else if !SecondByte(s[0], s[1]) then Some(1)
    else if |s| < 3 then None
    else if !Continuation(s[2]) then Some(2)
    else if |s| < 4 then None
    else Some(3)
  }

  const REPLACEMENT: bytes := [0xEF, 0xBF, 0xBD]

  /** `String::from_utf8_lossy`: each ill-formed sequence becomes one replacement character. */
  function Lossy(s: bytes): (r: bytes) {
    if s == [] then []
    else if Head(s) > 0 then s[..Head(s)] + Lossy(s[Head(s)..])
    else
      match ErrorLength(s)
      case Some(k) => REPLACEMENT + Lossy(s[k..])
      case None => REPLACEMENT
  }

  lemma {:induction false} LossyKeepsValid(s: bytes)
    requires Valid(s)
    ensures Lossy(s) == s
  {
    if s != [] {
      LossyKeepsValid(s[Head(s)..]);
    }
  }

  lemma {:induction false} ValidConcat(a: bytes, b: bytes)
    requires Valid(a) && Valid(b)
    ensures Valid(a + b)
  {
    if a == [] {
      assert a + b == b;
    } else {
      assert Head(a + b) == Head(a);
      assert (a + b)[Head(a)..] == a[Head(a)..] + b;
      ValidConcat(a[Head(a)..], b);
    }
  }

  /** A valid text may be cut on either side of any ASCII byte. */
  lemma {:induction false} ValidCutAtAscii(a: bytes, c: byte, b: bytes)
    requires c < 0x80 && Valid(a + [c] + b)
    ensures Valid(a) && Valid(b)
  {
    var s := a + [c] + b;
    if a == [] {
      assert Head(s) == 1 && s[1..] == b;
    } else {
      var n := Head(s);
      assert s[|a|] == c;
      assert n <= |a|;
      assert Head(a) == n;
      assert s[n..] == a[n..] + [c] + b by {
        assert s == a[..n] + (a[n..] + [c] + b);
      }
      ValidCutAtAscii(a[n..], c, b);
    }
  }

  lemma AsciiValid(s: bytes)
    requires forall i :: 0 <= i < |s| ==> s[i] < 0x80
    ensures Valid(s)
  {
  }

  // ---- against the definition of the encoding ------------------------------------------------

  /** A Unicode scalar value: a code point that is no surrogate. */
  predicate Scalar(c: int) {
    0 <= c < 0xD800 || 0xE000 <= c < 0x11_0000
  }

  /** The table in section 3 of RFC 3629. */
  function EncodeScalar(c: int): bytes
    requires Scalar(c)
  {
    if c < 0x80 then [c]
    else if c < 0x800 then [0xC0 + c / 64, 0x80 + c % 64]
    else if c < 0x1_0000 then [0xE0 + c / 4096, 0x80 + c / 64 % 64, 0x80 + c % 64]
    else [0xF0 + c / 262144, 0x80 + c / 4096 % 64, 0x80 + c / 64 % 64, 0x80 + c % 64]
  }

  predicate Scalars(text: seq<int>) {
    forall i :: 0 <= i < |text| ==> Scalar(text[i])
  }

  function EncodeText(text: seq<int>): (r: bytes)
    requires Scalars(text)
  {
    if text == [] then [] else EncodeScalar(text[0]) + EncodeText(text[1..])
  }

  lemma HeadOfScalar(c: int, rest: bytes)
    requires Scalar(c)
    ensures Head(EncodeScalar(c) + rest) == |EncodeScalar(c)| > 0
  {
    if 0x800 <= c < 0x1_0000 {
      assert c / 4096 == c / 64 / 64;
    } else if c >= 0x1_0000 {
      assert c / 262144 == c / 4096 / 64;
    }
  }

  /** The scalar value a well-formed character stands for. */
  function ScalarOf(s: bytes): int
    requires s != [] && Head(s) > 0
  {
    if Head(s) == 1 then s[0]
    else if Head(s) == 2 then (s[0] as int - 0xC0) * 64 + (s[1] as int - 0x80)
    else if Head(s) == 3 then (s[0] as int - 0xE0) * 4096 + (s[1] as int - 0x80) * 64 + (s[2] as int - 0x80)
    else
      (s[0] as int - 0xF0) * 262144 + (s[1] as int - 0x80) * 4096 + (s[2] as int - 0x80) * 64 + (s[3] as int - 0x80)
  }

  lemma TwoBytes(s: bytes)
    requires s != [] && Head(s) == 2
    ensures Scalar(ScalarOf(s)) && EncodeScalar(ScalarOf(s)) == s[..2]
  {
    assert ScalarOf(s) / 64 == s[0] - 0xC0;
  }

  lemma ThreeBytes(s: bytes)
    requires s != [] && Head(s) == 3
    ensures Scalar(ScalarOf(s)) && EncodeScalar(ScalarOf(s)) == s[..3]
  {
    var c := ScalarOf(s);
    assert c / 64 == (s[0] as int - 0xE0) * 64 + (s[1] as int - 0x80);
    assert c / 4096 == s[0] - 0xE0;
  }

  lemma FourBytes(s: bytes)
    requires s != [] && Head(s) == 4
    ensures Scalar(ScalarOf(s)) && EncodeScalar(ScalarOf(s)) == s[..4]
  {
    var c := ScalarOf(s);
    assert c / 64 == (s[0] as int - 0xF0) * 4096 + (s[1] as int - 0x80) * 64 + (s[2] as int - 0x80);
    assert c / 4096 == (s[0] as int - 0xF0) * 64 + (s[1] as int - 0x80);
    assert c / 262144 == s[0] - 0xF0;
  }

  lemma ScalarAtHead(s: bytes)
    requires s != [] && Head(s) > 0
    ensures Scalar(ScalarOf(s)) && EncodeScalar(ScalarOf(s)) == s[..Head(s)]
  {
    if Head(s) == 2 {
      TwoBytes(s);
    } else if Head(s) == 3 {
      ThreeBytes(s);
    } else if Head(s) == 4 {
      FourBytes(s);
    }
  }

  /** The encoding of any text is well-formed. */
  lemma {:induction false} EncodedIsValid(text: seq<int>)
    requires Scalars(text)
    ensures Valid(EncodeText(text))
  {
    hide Head, EncodeScalar;
    if text != [] {
      var head, rest := EncodeScalar(text[0]), EncodeText(text[1..]);
      HeadOfScalar(text[0], rest);
      EncodedIsValid(text[1..]);
      assert (head + rest)[|head|..] == rest;
    }
  }

  /** Every well-formed byte string is the encoding of a text. */
  lemma {:induction false} ValidIsEncoded(s: bytes) returns (text: seq<int>)
    requires Valid(s)
    ensures Scalars(text) && EncodeText(text) == s
  {
    hide Head, EncodeScalar, ScalarOf, Scalar;
    if s == [] {
      return [];
    }
    ScalarAtHead(s);
    text := ValidIsEncoded(s[Head(s)..]);
    var first := ScalarOf(s);
    var rest := text;
    text := [first] + rest;
    assert text[1..] == rest;
  }

  /** What a lossy reading gives is always well-formed. */
  lemma {:induction false} LossyIsValid(s: bytes)
    ensures Valid(Lossy(s))
  {
    if s != [] {
      if Head(s) > 0 {
        LossyIsValid(s[Head(s)..]);
        HeadAlone(s);
        ValidConcat(s[..Head(s)], Lossy(s[Head(s)..]));
      } else {
        ReplacementIsValid();
        match ErrorLength(s)
        case None =>
        case Some(k) =>
          LossyIsValid(s[k..]);
          ValidConcat(REPLACEMENT, Lossy(s[k..]));
      }
    }
  }

  lemma HeadAlone(s: bytes)
    requires s != [] && Head(s) > 0
    ensures Valid(s[..Head(s)])
  {
    var h := s[..Head(s)];
    assert Head(h) == |h| && h[|h|..] == [];
  }

  lemma ReplacementIsValid()
    ensures Valid(REPLACEMENT)
  {
    assert Head(REPLACEMENT) == 3 && REPLACEMENT[3..] == [];
  }

  lemma HeadStable(a: bytes, b: bytes)
    requires a != [] && Head(a) > 0
    ensures Head(a + b) == Head(a) && (a + b)[..Head(a)] == a[..Head(a)] && (a + b)[Head(a)..] == a[Head(a)..] + b
  {
  }

  lemma {:induction false} LossyConcat(a: bytes, b: bytes)
    requires Valid(a)
    ensures Lossy(a + b) == a + Lossy(b)
  {
    hide Head, ErrorLength;
    if a == [] {
      assert a + b == b;
    } else {
      var n := Head(a);
      HeadStable(a, b);
      LossyConcat(a[n..], b);
      assert a == a[..n] + a[n..];
      ConcatAssoc(a[..n], a[n..], Lossy(b));
    }
  }

  /** Behind well-formed text, an ill-formed sequence is read as U+FFFD and reading goes on behind
      it; text that ends inside a character is closed by one U+FFFD. */
  lemma LossyReplaces(a: bytes, bad: bytes)
    requires Valid(a) && bad != [] && Head(bad) == 0
    ensures ErrorLength(bad).Some? ==>
              Lossy(a + bad) == a + [0xEF, 0xBF, 0xBD] + Lossy(bad[ErrorLength(bad).value..])
    ensures ErrorLength(bad).None? ==> Lossy(a + bad) == a + [0xEF, 0xBF, 0xBD]
  {
    hide ErrorLength, Head;
    LossyConcat(a, bad);
    if ErrorLength(bad).Some? {
      ConcatAssoc(a, [0xEF, 0xBF, 0xBD], Lossy(bad[ErrorLength(bad).value..]));
    }
  }

  /** A text that starts with no character ends inside one exactly when bytes could be added that
      complete it. */
  lemma TruncatedExactly(s: bytes)
    requires s != [] && Head(s) == 0
    ensures ErrorLength(s) == None <==> exists t :: Head(s + t) > |s|
  {
    if ErrorLength(s) == None {
      Completed(s);
    }
    if t :| Head(s + t) > |s| {
      assert forall i :: 0 <= i < |s| ==> (s + t)[i] == s[i];
    }
  }

  lemma Completed(s: bytes)
    requires s != [] && Head(s) == 0 && ErrorLength(s) == None
    ensures exists t :: Head(s + t) > |s|
  {
    var second := if s[0] == 0xE0 then 0xA0 else if s[0] == 0xF0 then 0x90 else 0x80;
    var tail: bytes := [second, 0x80, 0x80];
    var t := tail[|s| - 1..];
    assert Head(s + t) > |s|;
  }
}
