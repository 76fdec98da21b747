/** Choice of the compression encodings through `grpc-accept-encoding` and `grpc-encoding`. */
module Negotiation {
  import opened Bytes
  import opened Compression
  import opened Statuses
  import opened Framing
  import opened Encoder
  import opened LinkedBuffers

  function Name(e: Encoding): string {
    match e
    case Identity => "identity"
    case Gzip(_) => "gzip"
    case Zlib(_) => "zlib"
    case Zstd(_) => "zstd"
  }

  // ---- header texts --------------------------------------------------------------------------

  predicate IsBlank(c: char) {
    c == ' ' || c == '\t'
  }

  function TrimStart(s: string): string {
    if s != "" && IsBlank(s[0]) then TrimStart(s[1..]) else s
  }

  function TrimEnd(s: string): string {
    if s != "" && IsBlank(s[|s| - 1]) then TrimEnd(s[..|s| - 1]) else s
  }

  function Trim(s: string): string {
    TrimEnd(TrimStart(s))
  }

  /** `HeaderValue::to_str`. */
  predicate Visible(s: string) {
    forall i :: 0 <= i < |s| ==> 32 as char <= s[i] < 127 as char || s[i] == '\t'
  }

  function Join(names: seq<string>): string {
    if names == [] then "" else if |names| == 1 then names[0] else names[0] + "," + Join(names[1..])
  }

  /** The text up to the first comma, and the pieces after it. */
  function Split(s: string): (r: seq<string>)
    ensures |r| > 0
  {
    if s == "" then [""]
    else
      var rest := Split(s[1..]);
      if s[0] == ',' then [""] + rest else [[s[0]] + rest[0]] + rest[1..]
  }

  lemma {:induction false} SplitPiece(name: string, more: string)
    requires ',' !in name
    ensures Split(name) == [name]
    ensures Split(name + "," + more) == [name] + Split(more)
    decreases name
  {
    if name == "" {
      assert (name + "," + more)[1..] == more;
    } else {
      SplitPiece(name[1..], more);
      assert (name + "," + more)[1..] == name[1..] + "," + more;
      assert name == [name[0]] + name[1..];
    }
  }

  lemma {:induction false} SplitJoin(names: seq<string>)
    requires names != [] && forall i :: 0 <= i < |names| ==> ',' !in names[i]
    ensures Split(Join(names)) == names
  {
    hide Split;
    if |names| == 1 {
      SplitPiece(names[0], "");
      assert names == [names[0]];
    } else {
      SplitPiece(names[0], Join(names[1..]));
      SplitJoin(names[1..]);
      assert names == [names[0]] + names[1..];
    }
  }

  function Names(encodings: seq<Encoding>): (r: seq<string>)
    ensures |r| == |encodings|
  {
    seq(|encodings|, i requires 0 <= i < |encodings| => Name(encodings[i]))
  }

  lemma NameIsPlain(e: Encoding)
    ensures ',' !in Name(e) && Trim(Name(e)) == Name(e) && Visible(Name(e))
  {
  }

  // ---- client --------------------------------------------------------------------------------

  /** The `grpc-accept-encoding` header the client sends, if any: none for an empty list or one
      that starts with `Identity`. */
  function AcceptHeader(accept: Option<seq<Encoding>>): Option<string> {
    if accept.Some? && accept.value != [] && !accept.value[0].Identity? then Some(Join(Names(accept.value)))
    else None
  }

  datatype Rejection = Unimplemented(name: string) | NotText

  predicate Enabled(e: Encoding, encodings: seq<Encoding>) {
    exists i :: 0 <= i < |encodings| && SameKind(encodings[i], e)
  }

  /** `from_encoding_header`. */
  function FromEncodingHeader(header: Option<string>, config: Option<seq<Encoding>>): Result<Option<Encoding>, Rejection> {
    if config.None? || header.None? then Ok(None)
    else if !Visible(header.value) then Err(NotText)
    else if header.value == "gzip" && Enabled(Gzip(None), config.value) then Ok(Some(Gzip(None)))
    else if header.value == "zlib" && Enabled(Zlib(None), config.value) then Ok(Some(Zlib(None)))
    else if header.value == "zstd" && Enabled(Zstd(None), config.value) then Ok(Some(Zstd(None)))
    else if header.value == "identity" then Ok(None)
    else Err(Rejection.Unimplemented(header.value))
  }

  // ---- server --------------------------------------------------------------------------------

  /** The first available encoding of the named kind; unknown names and `identity` match nothing. */
  function FindNamed(name: string, available: seq<Encoding>): (r: Option<Encoding>) {
    if available == [] then None
    else if !available[0].Identity? && Name(available[0]) == name then Some(available[0])
    else FindNamed(name, available[1..])
  }

  function FindFirst(names: seq<string>, available: seq<Encoding>): (r: Option<Encoding>) {
    if names == [] then None
    else
      var found := FindNamed(Trim(names[0]), available);
      if found.Some? then found else FindFirst(names[1..], available)
  }

  /** `from_accept_encoding_header`. */
  function FromAcceptHeader(header: Option<string>, config: Option<seq<Encoding>>): Option<Encoding> {
    if config.None? || header.None? || !Visible(header.value) then None
    else FindFirst(Split(header.value), config.value)
  }

  /** The `grpc-encoding` header of the response. */
  function ResponseHeader(picked: Option<Encoding>): Option<string> {
    if picked.Some? then Some(Name(picked.value)) else None
  }

  // ---- agreement -----------------------------------------------------------------------------

  /** The server can send this kind. */
  predicate Supported(e: Encoding, send: seq<Encoding>) {
    !e.Identity? && Enabled(e, send)
  }

  /** `p` is the server's first encoding of the client's first supported kind. */
  ghost predicate BestChoice(accept: seq<Encoding>, send: seq<Encoding>, p: Encoding) {
    exists i, j :: 0 <= i < |accept| && 0 <= j < |send| && BestAt(accept, send, p, i, j)
  }

  ghost predicate BestAt(accept: seq<Encoding>, send: seq<Encoding>, p: Encoding, i: nat, j: nat)
    requires i < |accept| && j < |send|
  {
    && p == send[j] && SameKind(accept[i], p) && !p.Identity?
    && (forall k :: 0 <= k < i ==> !Supported(accept[k], send))
    && (forall k :: 0 <= k < j ==> !SameKind(send[k], p))
  }

  lemma SameName(a: Encoding, b: Encoding)
    ensures Name(a) == Name(b) <==> SameKind(a, b)
  {
  }

  lemma {:induction false} FindNamedIsFirst(e: Encoding, send: seq<Encoding>) returns (j: nat)
    ensures var r := FindNamed(Name(e), send);
            && (r.Some? <==> Supported(e, send))
            && (r.Some? ==> j < |send| && r.value == send[j] && SameKind(e, send[j])
                            && forall k :: 0 <= k < j ==> !SameKind(send[k], send[j]))
  {
    hide Name;
    if send == [] {
      return 0;
    }
    SameName(send[0], e);
    if !send[0].Identity? && Name(send[0]) == Name(e) {
      return 0;
    }
    j := FindNamedIsFirst(e, send[1..]);
    var r := FindNamed(Name(e), send[1..]);
    if r.Some? {
      j := j + 1;
      var i :| 0 <= i < |send[1..]| && SameKind(send[1..][i], e);
      assert SameKind(send[i + 1], e);
    }
    if Supported(e, send) {
      var i :| 0 <= i < |send| && SameKind(send[i], e);
      assert i > 0 && send[1..][i - 1] == send[i];
    }
  }

  lemma {:induction false} FindFirstIsBest(accept: seq<Encoding>, send: seq<Encoding>) returns (i: nat, j: nat)
    ensures var r := FindFirst(Names(accept), send);
            && (r.Some? ==> i < |accept| && j < |send| && BestAt(accept, send, r.value, i, j))
            && (r.None? ==> forall k :: 0 <= k < |accept| ==> !Supported(accept[k], send))
  {
    hide Name, Trim;
    i, j := 0, 0;
    if accept == [] {
      return;
    }
    NameIsPlain(accept[0]);
    assert Names(accept)[1..] == Names(accept[1..]);
    j := FindNamedIsFirst(accept[0], send);
    if FindNamed(Name(accept[0]), send).None? {
      i, j := FindFirstIsBest(accept[1..], send);
      i := i + 1;
      assert forall k :: 1 <= k < |accept| ==> accept[k] == accept[1..][k - 1];
    }
  }

  lemma {:induction false} JoinVisible(encodings: seq<Encoding>)
    ensures Visible(Join(Names(encodings)))
  {
    if encodings != [] {
      NameIsPlain(encodings[0]);
      JoinVisible(encodings[1..]);
      assert Names(encodings)[1..] == Names(encodings[1..]);
    }
  }

  /** Whatever the two configurations, the server picks the first kind in the client's order that
      it can send, never `Identity`, and nothing when there is none or the client's list is empty or
      starts with `Identity`; the client accepts the answer as that same kind and never answers Unimplemented. */
  lemma NegotiationAgrees(accept: Option<seq<Encoding>>, send: Option<seq<Encoding>>)
    ensures var picked := FromAcceptHeader(AcceptHeader(accept), send);
            var answer := FromEncodingHeader(ResponseHeader(picked), accept);
            && (picked.Some? ==>
                  && accept.Some? && accept.value != [] && !accept.value[0].Identity? && send.Some?
                  && BestChoice(accept.value, send.value, picked.value) && !picked.value.Identity?
                  && answer.Ok? && answer.value.Some? && SameKind(picked.value, answer.value.value))
            && (picked.None? ==>
                  && answer == Ok(None)
                  && (accept.Some? && accept.value != [] && !accept.value[0].Identity? && send.Some? ==>
                        forall k :: 0 <= k < |accept.value| ==> !Supported(accept.value[k], send.value)))
  {
    if AcceptHeader(accept).Some? && send.Some? {
      var names := Names(accept.value);
      JoinVisible(accept.value);
      forall k | 0 <= k < |names|
        ensures ',' !in names[k]
      {
        NameIsPlain(accept.value[k]);
      }
      SplitJoin(names);
      var i, j := FindFirstIsBest(accept.value, send.value);
      var picked := FromAcceptHeader(AcceptHeader(accept), send);
      if picked.Some? {
        AnswerAccepted(picked.value, accept.value, i);
      }
    }
  }

  lemma AnswerAccepted(p: Encoding, accept: seq<Encoding>, i: nat)
    requires i < |accept| && SameKind(accept[i], p) && !p.Identity?
    ensures var answer := FromEncodingHeader(Some(Name(p)), Some(accept));
            answer.Ok? && answer.value.Some? && SameKind(p, answer.value.value)
  {
    NameIsPlain(p);
    match p
    case Gzip(_) => assert SameKind(accept[i], Gzip(None));
    case Zlib(_) => assert SameKind(accept[i], Zlib(None));
    case Zstd(_) => assert SameKind(accept[i], Zstd(None));
  }

  /** A negotiated response can be decoded: if every encoding the server may send carries a
      configuration, its sender and the client's receiver match. */
  lemma NegotiatedResponseMatches<M(!new)>(codec: Codec<M>, lib: Libraries,
                                           accept: Option<seq<Encoding>>, send: Option<seq<Encoding>>)
    requires CodecLawful(codec) && LibrariesLawful(lib)
    requires send.Some? ==> forall e :: e in send.value ==> e.Identity? || e.config.Some?
    ensures var picked := FromAcceptHeader(AcceptHeader(accept), send);
            var answer := FromEncodingHeader(ResponseHeader(picked), accept);
            answer.Ok? && Matched(Sender(codec, lib, picked), Receiver(codec, lib, answer.value))
  {
    hide FromAcceptHeader, AcceptHeader, FromEncodingHeader, CodecLawful, LibrariesLawful;
    NegotiationAgrees(accept, send);
  }

  /** A client that sends with `Identity` is never understood: the server reads the header as "no
      compression" while every message carries the compressed flag. */
  lemma IdentityRequestsFail<M>(tx: Sender<M>, rx: Receiver<M>, accept: Option<seq<Encoding>>, m: M, more: bytes)
    requires tx.encoding == Some(Identity) && Fits(tx, Ok(m)) && Pieces(tx, m).Ok?
    requires FromEncodingHeader(Some(Name(Identity)), accept) == Ok(rx.encoding)
    ensures NextFrame(rx, Frame(true, Content(Pieces(tx, m).value)) + more) == Malformed(FlagWithoutEncoding)
  {
    NameIsPlain(Identity);
    assert rx.encoding == None;
  }

  // ---- every header text -----------------------------------------------------------------------

  /** Whatever the text of `grpc-encoding`, it is accepted exactly if it is "identity" or names a
      kind that was configured, and then as that kind; every other text is refused. */
  lemma EncodingHeaderExactly(text: string, accept: seq<Encoding>)
    ensures var r := FromEncodingHeader(Some(text), Some(accept));
            && (r == Ok(None) <==> text == "identity")
            && (r.Ok? && r.value.Some? <==> exists i :: 0 <= i < |accept| && !accept[i].Identity? && Name(accept[i]) == text)
            && (r.Ok? && r.value.Some? ==> Name(r.value.value) == text)
  {
    var r := FromEncodingHeader(Some(text), Some(accept));
    NamesApart();
    if i :| 0 <= i < |accept| && !accept[i].Identity? && Name(accept[i]) == text {
      AnswerAccepted(accept[i], accept, i);
    }
    if r.Ok? && r.value.Some? {
      var i :| 0 <= i < |accept| && SameKind(accept[i], r.value.value);
      SameName(accept[i], r.value.value);
    }
  }

  lemma NamesApart()
    ensures "identity" != "gzip" && "identity" != "zlib" && "identity" != "zstd"
  {
    assert |"identity"| != |"gzip"| && |"identity"| != |"zlib"| && |"identity"| != |"zstd"|;
  }

  predicate Blanks(s: string) {
    forall i :: 0 <= i < |s| ==> s[i] == ' ' || s[i] == '\t'
  }

  /** No blank at either end, and no comma. */
  predicate Plain(s: string) {
    ',' !in s && Visible(s) && (s != "" ==> !IsBlank(s[0]) && !IsBlank(s[|s| - 1]))
  }

  lemma {:induction false} TrimStartBlanks(a: string, s: string)
    requires Blanks(a) && (s == "" || !IsBlank(s[0]))
    ensures TrimStart(a + s) == s
  {
    if a == "" {
      assert a + s == s;
    } else {
      assert (a + s)[1..] == a[1..] + s;
      TrimStartBlanks(a[1..], s);
    }
  }

  lemma {:induction false} TrimEndBlanks(s: string, b: string)
    requires Blanks(b) && (s == "" || !IsBlank(s[|s| - 1]))
    ensures TrimEnd(s + b) == s
    decreases |b|
  {
    if b == "" {
      assert s + b == s;
    } else {
      assert (s + b)[..|s + b| - 1] == s + b[..|b| - 1];
      TrimEndBlanks(s, b[..|b| - 1]);
    }
  }

  /** Blanks around a name are dropped. */
  lemma TrimIs(a: string, s: string, b: string)
    requires Blanks(a) && Blanks(b) && Plain(s)
    ensures Trim(a + s + b) == s
  {
    if s == "" {
      assert a + s + b == (a + b) + "";
      TrimStartBlanks(a + b, "");
    } else {
      assert a + s + b == a + (s + b);
      TrimStartBlanks(a, s + b);
      TrimEndBlanks(s, b);
    }
  }

  /** A name with blanks before and after it. */
  datatype Padded = Padded(before: string, name: string, after: string)

  predicate WellPadded(ps: seq<Padded>) {
    forall i :: 0 <= i < |ps| ==> Blanks(ps[i].before) && Blanks(ps[i].after) && Plain(ps[i].name)
  }

  function Spelled(ps: seq<Padded>): (r: seq<string>)
    ensures |r| == |ps|
  {
    seq(|ps|, i requires 0 <= i < |ps| => ps[i].before + ps[i].name + ps[i].after)
  }

  function Bare(ps: seq<Padded>): (r: seq<string>)
    ensures |r| == |ps|
  {
    seq(|ps|, i requires 0 <= i < |ps| => ps[i].name)
  }

  lemma {:induction false} FindFirstOfTrimmed(a: seq<string>, b: seq<string>, send: seq<Encoding>)
    requires |a| == |b| && forall i :: 0 <= i < |a| ==> Trim(a[i]) == Trim(b[i])
    ensures FindFirst(a, send) == FindFirst(b, send)
    decreases |a|
  {
    hide Trim, FindNamed;
    if a != [] {
      FindFirstOfTrimmed(a[1..], b[1..], send);
    }
  }

  lemma {:induction false} JoinedVisible(names: seq<string>)
    requires forall i :: 0 <= i < |names| ==> Visible(names[i])
    ensures Visible(Join(names))
  {
    if |names| > 1 {
      JoinedVisible(names[1..]);
    }
  }

  lemma PaddedText(p: Padded)
    requires Blanks(p.before) && Blanks(p.after) && Plain(p.name)
    ensures var s := p.before + p.name + p.after;
            ',' !in s && Visible(s) && Trim(s) == Trim(p.name) && ',' !in p.name && Visible(p.name)
  {
    hide Trim;
    TrimIs(p.before, p.name, p.after);
    TrimIs("", p.name, "");
    assert "" + p.name + "" == p.name;
  }

  /** A list of names is read alike with and without blanks around them. */
  lemma BlanksDoNotMatter(ps: seq<Padded>, config: Option<seq<Encoding>>)
    requires ps != [] && WellPadded(ps)
    ensures FromAcceptHeader(Some(Join(Spelled(ps))), config) == FromAcceptHeader(Some(Join(Bare(ps))), config)
  {
    hide Trim, FindFirst, Split, Join, Visible;
    var a, b := Spelled(ps), Bare(ps);
    forall i | 0 <= i < |ps|
      ensures ',' !in a[i] && Visible(a[i]) && ',' !in b[i] && Visible(b[i]) && Trim(a[i]) == Trim(b[i])
    {
      PaddedText(ps[i]);
    }
    JoinedVisible(a);
    JoinedVisible(b);
    SplitJoin(a);
    SplitJoin(b);
    if config.Some? {
      FindFirstOfTrimmed(a, b, config.value);
    }
  }

  /** What a client that takes gzip and zstd, in this order, sends. */
  lemma AcceptHeaderText(l: Option<Level>, m: Option<Level>)
    ensures AcceptHeader(Some([Gzip(l), Zstd(m)])) == Some("gzip,zstd")
  {
    var names := Names([Gzip(l), Zstd(m)]);
    assert names == ["gzip", "zstd"];
    assert names[1..] == ["zstd"];
    assert Join(names) == names[0] + "," + Join(names[1..]);
    assert "gzip" + "," + "zstd" == "gzip,zstd";
  }
}
