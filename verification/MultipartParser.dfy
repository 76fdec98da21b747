/** A reference parser for form data in multipart bodies (section 5.1.1 of RFC 2046, section 4.2 of
    RFC 7578) and the proof that encoded forms split back into their parts. The parser shares no text
    with the encoder. */
module MultipartParser {
  import opened Bytes
  import opened Multipart

  /** CRLF, two dashes and the boundary. */
  function Delimiter(boundary: bytes): bytes {
    [13, 10] + [45, 45] + boundary
  }

  /** Position of the first occurrence of `d`. */
  function Find(d: bytes, s: bytes): (r: Option<nat>)
    ensures r.Some? ==> r.value + |d| <= |s|
    decreases |s|
  {
    if |s| < |d| then None
    else if d <= s then Some(0)
    else if s == [] then None
    else
      match Find(d, s[1..])
      case None => None
      case Some(k) => Some(k + 1)
  }

  predicate Occurs(d: bytes, s: bytes) {
    exists i :: 0 <= i <= |s| && d <= s[i..]
  }

  lemma {:induction false} FindMeansOccurs(d: bytes, s: bytes)
    ensures Find(d, s).Some? <==> Occurs(d, s)
    decreases |s|
  {
    if d <= s {
      assert s[0..] == s;
    } else if s == [] {
      assert forall i :: 0 <= i <= |s| ==> s[i..] == s;
    } else {
      FindMeansOccurs(d, s[1..]);
      if Occurs(d, s[1..]) {
        var i :| 0 <= i <= |s[1..]| && d <= s[1..][i..];
        assert s[1..][i..] == s[i + 1..];
      }
      if Occurs(d, s) {
        var i :| 0 <= i <= |s| && d <= s[i..];
        assert i != 0 by { assert s[0..] == s; }
        assert s[1..][i - 1..] == s[i..];
      }
    }
  }

  /** A delimiter that has CR only in front cannot straddle the data before it. */
  lemma {:induction false} FindAfterData(d: bytes, data: bytes, rest: bytes)
    requires d != [] && d[0] == CR && CR !in d[1..]
    requires Find(d, data) == None
    ensures Find(d, data + d + rest) == Some(|data|)
    decreases |data|
  {
    var s := data + d + rest;
    if data == [] {
      assert s == d + rest;
    } else {
      assert !(d <= s) by {
        if d <= s {
          NoStraddle(d, data, rest);
        }
      }
      assert s[1..] == data[1..] + d + rest;
      assert Find(d, data[1..]) == None;
      FindAfterData(d, data[1..], rest);
    }
  }

  lemma NoStraddle(d: bytes, data: bytes, rest: bytes)
    requires d != [] && d[0] == CR && CR !in d[1..] && data != []
    requires d <= data + d + rest
    ensures d <= data
  {
    var s := data + d + rest;
    forall j | 0 < j < |d|
      ensures d[j] != CR
    {
      assert d[1..][j - 1] == d[j];
    }
    assert s[|data|] == CR;
    assert |d| <= |data|;
    assert d == s[..|d|] == data[..|d|];
  }

  /** An occurrence inside the data is found before the delimiter. */
  lemma {:induction false} FindInsideData(d: bytes, data: bytes, more: bytes)
    requires d != [] && Find(d, data).Some?
    ensures Find(d, data + more) == Find(d, data) && Find(d, data).value < |data|
    decreases |data|
  {
    var s := data + more;
    if !(d <= data) {
      assert s[..|d|] == data[..|d|];
      assert s[1..] == data[1..] + more;
      FindInsideData(d, data[1..], more);
    }
  }

  // ---- headers -------------------------------------------------------------------------------

  datatype ReadPart = ReadPart(name: bytes, fileName: Option<bytes>, mime: Option<bytes>, data: bytes)

  /** Position of the first byte `c`, or the length of the text. */
  function IndexOf(c: byte, s: bytes): (n: nat)
    ensures n <= |s| && (n < |s| ==> s[n] == c)
  {
    if s == [] || s[0] == c then 0 else 1 + IndexOf(c, s[1..])
  }

  function Lower(s: bytes): (r: bytes)
    ensures |r| == |s|
  {
    seq(|s|, i requires 0 <= i < |s| => if 65 <= s[i] <= 90 then s[i] + 32 else s[i])
  }

  datatype HeaderField = HeaderField(name: bytes, value: bytes)

  datatype HeaderBlock = NoBlock | HeaderBlock(fields: seq<HeaderField>, rest: bytes)

  /** One header line: a name in any case, a colon, and a value behind at most one space. */
  function ParseLine(line: bytes): Option<HeaderField> {
    var n := IndexOf(58, line);
    if n == |line| then None
    else
      var value := line[n + 1..];
      Some(HeaderField(Lower(line[..n]), if value != [] && value[0] == 32 then value[1..] else value))
  }

  /** The header lines up to a blank one, each ended by CRLF. */
  function ParseBlock(s: bytes): (r: HeaderBlock)
    ensures r.HeaderBlock? ==> |r.rest| <= |s|
    decreases |s|
  {
    match Find([13, 10], s)
    case None => NoBlock
    case Some(n) =>
      if n == 0 then HeaderBlock([], s[2..])
      else
        match ParseLine(s[..n])
        case None => NoBlock
        case Some(field) =>
          match ParseBlock(s[n + 2..])
          case NoBlock => NoBlock
          case HeaderBlock(fields, rest) => HeaderBlock([field] + fields, rest)
  }

  /** The parameters of a header value: semicolon, blanks, name, equals sign, quoted-string. */
  function ParseParams(s: bytes): (r: Option<seq<HeaderField>>)
    decreases |s|
  {
    if s == [] then Some([])
    else if s[0] != 59 then None
    else
      var t := if |s| > 1 && s[1] == 32 then s[2..] else s[1..];
      var n := IndexOf(61, t);
      if n + 1 >= |t| || t[n + 1] != 34 then None
      else
        match ReadQuoted(t[n + 2..])
        case Unclosed => None
        case Closed(value, rest) =>
          match ParseParams(rest)
          case None => None
          case Some(params) => Some([HeaderField(Lower(t[..n]), value)] + params)
  }

  /** The first value under a name. */
  function Lookup(fields: seq<HeaderField>, name: bytes): Option<bytes> {
    if fields == [] then None
    else if fields[0].name == name then Some(fields[0].value)
    else Lookup(fields[1..], name)
  }

  /** Header fields that were read, and the text after the blank line. */
  datatype ReadHeader = Bad | Good(name: bytes, fileName: Option<bytes>, mime: Option<bytes>, rest: bytes)

  /** The header of a part: its disposition must be form data with a name. */
  function ParseHeader(s: bytes): (r: ReadHeader)
    ensures r.Good? ==> |r.rest| <= |s|
  {
    match ParseBlock(s)
    case NoBlock => Bad
    case HeaderBlock(fields, rest) =>
      match Lookup(fields, B("content-disposition"))
      case None => Bad
      case Some(value) =>
        var n := IndexOf(59, value);
        if Lower(value[..n]) != B("form-data") then Bad
        else
          match ParseParams(value[n..])
          case None => Bad
          case Some(params) =>
            match Lookup(params, B("name"))
            case None => Bad
            case Some(name) =>
              Good(name, Lookup(params, B("filename")), Lookup(fields, B("content-type")), rest)
  }

  // ---- reading what the encoder writes -------------------------------------------------------

  lemma {:induction false} IndexAfter(c: byte, a: bytes, b: bytes)
    requires c !in a
    ensures IndexOf(c, a + [c] + b) == |a|
  {
    var s := a + [c] + b;
    if a != [] {
      assert a[0] in a;
      assert s[1..] == a[1..] + [c] + b;
      IndexAfter(c, a[1..], b);
    }
  }

  lemma {:induction false} NoCrNoLine(s: bytes)
    requires CR !in s
    ensures Find([13, 10], s) == None
  {
    if s != [] {
      assert s[0] in s;
      NoCrNoLine(s[1..]);
    }
  }

  /** A line without CR is split off whole. */
  lemma BlockStep(line: bytes, field: HeaderField, rest: bytes)
    requires line != [] && CR !in line && ParseLine(line) == Some(field)
    ensures ParseBlock(line + [13, 10] + rest) ==
            match ParseBlock(rest)
            case NoBlock => NoBlock
            case HeaderBlock(fields, after) => HeaderBlock([field] + fields, after)
  {
    hide ParseLine, Find;
    var s := line + [13, 10] + rest;
    NoCrNoLine(line);
    FindAfterData([13, 10], line, rest);
    assert s[..|line|] == line && s[|line| + 2..] == rest;
  }

  lemma BlockEnd(rest: bytes)
    ensures ParseBlock([13, 10] + rest) == HeaderBlock([], rest)
  {
    var s := [13, 10] + rest;
    assert [13, 10] <= s && s[2..] == rest;
  }

  lemma LineReads(name: bytes, value: bytes)
    requires 58 !in name
    ensures ParseLine(name + [58] + ([32] + value)) == Some(HeaderField(Lower(name), value))
  {
    hide Lower;
    var line := name + [58] + ([32] + value);
    IndexAfter(58, name, [32] + value);
    assert line[..|name|] == name && line[|name| + 1..] == [32] + value;
  }

  lemma ParamReads(name: bytes, v: bytes, rest: bytes)
    requires 61 !in name && name != [] && name[0] != 32
    ensures ParseParams([59, 32] + name + [61] + ([34] + (Escaped(v) + [QUOTE] + rest))) ==
            match ParseParams(rest)
            case None => None
            case Some(params) => Some([HeaderField(Lower(name), Spaced(v))] + params)
  {
    hide Lower, Escaped, ReadQuoted, Spaced;
    var quoted := Escaped(v) + [QUOTE] + rest;
    var t := name + [61] + ([34] + quoted);
    var s := [59, 32] + name + [61] + ([34] + quoted);
    assert s == [59, 32] + t;
    assert s[2..] == t;
    IndexAfter(61, name, [34] + quoted);
    assert t[..|name|] == name && t[|name| + 1] == 34 && t[|name| + 2..] == quoted;
    QuotedRoundTrip(v, rest);
  }

  // The texts of the encoder, taken apart.

  lemma Texts()
    ensures DISPOSITION == B("Content-Disposition") + [58] + ([32] + (B("form-data") + ([59, 32] + B("name") + [61] + [34])))
    ensures FILENAME == [59, 32] + B("filename") + [61] + [34]
    ensures CONTENT_TYPE == B("Content-Type") + [58] + [32]
    ensures CRLF == [13, 10] && DASHES == [45, 45]
  {
  }

  lemma LowerTexts()
    ensures Lower(B("Content-Disposition")) == B("content-disposition")
    ensures Lower(B("Content-Type")) == B("content-type")
    ensures Lower(B("form-data")) == B("form-data")
    ensures Lower(B("name")) == B("name") && Lower(B("filename")) == B("filename")
  {
  }

  lemma NamesDiffer()
    ensures B("content-disposition") != B("content-type") && B("name") != B("filename")
  {
    assert |B("content-disposition")| != |B("content-type")| && |B("name")| != |B("filename")|;
  }

  lemma PlainNames()
    ensures forall b :: b in B("Content-Disposition") ==> b != 58 && b != 13
    ensures forall b :: b in B("Content-Type") ==> b != 58 && b != 13
    ensures forall b :: b in B("form-data") ==> b != 59 && b != 13
    ensures forall b :: b in B("name") ==> b != 61 && b != 13
    ensures forall b :: b in B("filename") ==> b != 61 && b != 13
  {
  }

  function SpacedOption(v: Option<bytes>): Option<bytes> {
    if v.None? then None else Some(Spaced(v.value))
  }

  predicate MimeOneLine(f: Field) {
    f.part.mime.Some? ==> CR !in f.part.mime.value
  }

  /** The parameters, the value and the line of a disposition as they are read. */
  function FileParam(fileName: Option<bytes>): bytes {
    if fileName.None? then []
    else [59, 32] + B("filename") + [61] + ([34] + (Escaped(fileName.value) + [QUOTE] + []))
  }

  function Params(f: Field): bytes {
    [59, 32] + B("name") + [61] + ([34] + (Escaped(f.name) + [QUOTE] + FileParam(f.part.fileName)))
  }

  function DispositionLine(f: Field): bytes {
    B("Content-Disposition") + [58] + ([32] + (B("form-data") + Params(f)))
  }

  lemma FileParamWritten(fileName: Option<bytes>)
    ensures FileNameText(fileName) == FileParam(fileName)
  {
    hide Escaped, B, FILENAME;
    Texts();
    if fileName.Some? {
      var e, head := Escaped(fileName.value), [59, 32] + B("filename") + [61];
      assert e + [QUOTE] + [] == e + [QUOTE];
      ConcatAssoc(head, [34], e + [QUOTE]);
      ConcatAssoc(head + [34], e, [QUOTE]);
    }
  }

  lemma DispositionWritten(f: Field)
    ensures DISPOSITION + Escaped(f.name) + [QUOTE] + FileNameText(f.part.fileName) == DispositionLine(f)
  {
    hide Escaped, B, DISPOSITION, FileNameText, FileParam;
    Texts();
    FileParamWritten(f.part.fileName);
    var e, p := Escaped(f.name), FileParam(f.part.fileName);
    var key := [59, 32] + B("name") + [61];
    var x := e + [QUOTE] + p;
    ConcatAssoc(DISPOSITION, e, [QUOTE]);
    ConcatAssoc(DISPOSITION, e + [QUOTE], p);
    ConcatAssoc(B("Content-Disposition") + [58], [32] + (B("form-data") + (key + [34])), x);
    ConcatAssoc([32], B("form-data") + (key + [34]), x);
    ConcatAssoc(B("form-data"), key + [34], x);
    ConcatAssoc(key, [34], x);
  }

  lemma ParamsRead(f: Field)
    ensures ParseParams(Params(f)) ==
            Some([HeaderField(B("name"), Spaced(f.name))]
                 + if f.part.fileName.None? then []
                   else [HeaderField(B("filename"), Spaced(f.part.fileName.value))])
  {
    hide Escaped, B, ParseParams, Spaced, Lower;
    PlainNames();
    LowerTexts();
    NameStarts();
    NoParams();
    ParamReads(B("name"), f.name, FileParam(f.part.fileName));
    if f.part.fileName.Some? {
      ParamReads(B("filename"), f.part.fileName.value, []);
      var file := HeaderField(B("filename"), Spaced(f.part.fileName.value));
      assert [file] + [] == [file];
    }
  }

  lemma NameStarts()
    ensures B("name") != [] && B("name")[0] != 32 && B("filename") != [] && B("filename")[0] != 32
  {
  }

  lemma NoParams()
    ensures ParseParams([]) == Some([])
  {
  }

  lemma DispositionOneLine(f: Field)
    ensures CR !in DispositionLine(f) && DispositionLine(f) != []
  {
    hide Escaped, B;
    PlainNames();
    EscapedOneLine(f.name);
    if f.part.fileName.Some? {
      EscapedOneLine(f.part.fileName.value);
    }
  }

  /** What the value of the disposition is read as. */
  lemma ValueReads(f: Field)
    ensures var value := B("form-data") + Params(f);
            var n := IndexOf(59, value);
            value[..n] == B("form-data") && value[n..] == Params(f)
  {
    hide Escaped, B, FileParam;
    PlainNames();
    var rest := Params(f)[1..];
    assert Params(f) == [59] + rest;
    IndexAfter(59, B("form-data"), rest);
    assert B("form-data") + Params(f) == B("form-data") + [59] + rest;
  }

  function MimeField(mime: Option<bytes>): seq<HeaderField> {
    if mime.None? then [] else [HeaderField(B("content-type"), mime.value)]
  }

  lemma MimeReads(mime: Option<bytes>, data: bytes)
    requires mime.Some? ==> CR !in mime.value
    ensures ParseBlock(MimeText(mime) + ([13, 10] + data)) == HeaderBlock(MimeField(mime), data)
  {
    hide B, ParseBlock, ParseLine, Lower, CONTENT_TYPE;
    Texts();
    LowerTexts();
    PlainNames();
    BlockEnd(data);
    if mime.None? {
      assert [] + ([13, 10] + data) == [13, 10] + data;
    } else {
      var line := B("Content-Type") + [58] + ([32] + mime.value);
      ConcatAssoc(B("Content-Type") + [58], [32], mime.value);
      LineReads(B("Content-Type"), mime.value);
      BlockStep(line, HeaderField(B("content-type"), mime.value), [13, 10] + data);
    }
  }

  lemma BlockReads(f: Field, data: bytes)
    requires MimeOneLine(f)
    ensures ParseBlock(HeaderFields(f) + data)
         == HeaderBlock([HeaderField(B("content-disposition"), B("form-data") + Params(f))] + MimeField(f.part.mime), data)
  {
    hide B, ParseBlock, ParseLine, Lower, Params, MimeText, FileNameText, DISPOSITION, MimeField, Escaped;
    Texts();
    LowerTexts();
    PlainNames();
    var line, mime := DispositionLine(f), MimeText(f.part.mime);
    DispositionWritten(f);
    ConcatAssoc(line + [13, 10] + mime, [13, 10], data);
    ConcatAssoc(line + [13, 10], mime, [13, 10] + data);
    DispositionOneLine(f);
    LineReads(B("Content-Disposition"), B("form-data") + Params(f));
    MimeReads(f.part.mime, data);
    BlockStep(line, HeaderField(B("content-disposition"), B("form-data") + Params(f)), mime + ([13, 10] + data));
  }

  lemma LookupTwo(a: HeaderField, rest: seq<HeaderField>, name: bytes)
    ensures Lookup([a] + rest, name) == if a.name == name then Some(a.value) else Lookup(rest, name)
  {
    assert ([a] + rest)[1..] == rest;
  }

  lemma LookupOne(fields: seq<HeaderField>, name: bytes)
    requires |fields| <= 1 && (fields != [] ==> fields[0].name == name)
    ensures Lookup(fields, name) == if fields == [] then None else Some(fields[0].value)
  {
  }

  /** The header of a part reads back as its name, file name and content type, and the parser
      stops exactly where the data starts. */
  lemma HeaderRoundTrip(f: Field, data: bytes)
    requires MimeOneLine(f)
    ensures ParseHeader(HeaderFields(f) + data)
         == Good(Spaced(f.name), SpacedOption(f.part.fileName), f.part.mime, data)
  {
    hide B, ParseBlock, ParseParams, Lower, Params, Lookup, HeaderFields, IndexOf, Spaced;
    BlockReads(f, data);
    NamesDiffer();
    LowerTexts();
    ValueReads(f);
    ParamsRead(f);
    var disposition := HeaderField(B("content-disposition"), B("form-data") + Params(f));
    var mime := MimeField(f.part.mime);
    LookupTwo(disposition, mime, B("content-disposition"));
    LookupTwo(disposition, mime, B("content-type"));
    LookupOne(mime, B("content-type"));
    var name := HeaderField(B("name"), Spaced(f.name));
    var file := if f.part.fileName.None? then [] else [HeaderField(B("filename"), Spaced(f.part.fileName.value))];
    LookupTwo(name, file, B("name"));
    LookupTwo(name, file, B("filename"));
    LookupOne(file, B("filename"));
  }

  // ---- bodies --------------------------------------------------------------------------------

  /** Parses what follows a delimiter: two dashes end the body, a line end starts a part. */
  function ParseParts(boundary: bytes, s: bytes): (r: Option<seq<ReadPart>>)
    decreases |s|
  {
    if [45, 45] <= s then Some([])
    else if !([13, 10] <= s) then None
    else
      match ParseHeader(s[2..])
      case Bad => None
      case Good(name, fileName, mime, rest) =>
        match Find(Delimiter(boundary), rest)
        case None => None
        case Some(k) =>
          var next := rest[k + |Delimiter(boundary)|..];
          match ParseParts(boundary, next)
          case None => None
          case Some(parts) => Some([ReadPart(name, fileName, mime, rest[..k])] + parts)
  }

  /** Parses a body; anything before the first delimiter is a preamble. */
  function ParseBody(boundary: bytes, body: bytes): Option<seq<ReadPart>> {
    match Find(Delimiter(boundary), [13, 10] + body)
    case None => None
    case Some(k) => ParseParts(boundary, ([13, 10] + body)[k + |Delimiter(boundary)|..])
  }

  function DataOf(f: Field): bytes {
    Carried(ItemsOf(f.part.data))
  }

  /** What the receiver should see of a part: line ends in names become spaces. */
  function Seen(f: Field): ReadPart {
    ReadPart(Spaced(f.name), SpacedOption(f.part.fileName), f.part.mime, DataOf(f))
  }

  function AllSeen(fields: seq<Field>): (r: seq<ReadPart>) {
    if fields == [] then [] else [Seen(fields[0])] + AllSeen(fields[1..])
  }

  /** The encoded form as seen from behind a delimiter. */
  function Behind(boundary: bytes, fields: seq<Field>): (r: bytes)
    decreases |fields|
  {
    if fields == [] then DASHES + CRLF
    else
      CRLF + (HeaderFields(fields[0])
              + (DataOf(fields[0]) + Delimiter(boundary) + Behind(boundary, fields[1..])))
  }

  lemma {:induction false} EncodedIsDelimited(boundary: bytes, fields: seq<Field>)
    ensures CRLF + Encoded(boundary, fields) == Delimiter(boundary) + Behind(boundary, fields)
    decreases |fields|
  {
    hide HeaderFields, CRLF, DASHES, Carried, ItemsOf;
    Texts();
    var db := DASHES + boundary;
    ConcatAssoc(CRLF, DASHES, boundary);
    if fields == [] {
      ConcatAssoc(db, DASHES, CRLF);
      ConcatAssoc(CRLF, db, DASHES + CRLF);
    } else {
      var h, data, rest := HeaderFields(fields[0]), DataOf(fields[0]), Encoded(boundary, fields[1..]);
      EncodedIsDelimited(boundary, fields[1..]);
      var tail := CRLF + rest;
      var x := data + tail;
      ConcatAssoc(db + CRLF + h + data, CRLF, rest);
      ConcatAssoc(db + CRLF + h, data, tail);
      ConcatAssoc(db + CRLF, h, x);
      ConcatAssoc(db, CRLF, h + x);
      ConcatAssoc(CRLF, db, CRLF + (h + x));
      ConcatAssoc(data, Delimiter(boundary), Behind(boundary, fields[1..]));
    }
  }

  lemma DelimiterHasOneCr(boundary: bytes)
    requires CR !in boundary
    ensures var d := Delimiter(boundary); d != [] && d[0] == CR && CR !in d[1..]
  {
    var d := Delimiter(boundary);
    assert d[1..] == [LF] + DASHES + boundary;
  }

  predicate Clean(boundary: bytes, fields: seq<Field>) {
    forall i :: 0 <= i < |fields| ==> Find(Delimiter(boundary), DataOf(fields[i])).None?
  }

  lemma PartStep(boundary: bytes, fields: seq<Field>)
    requires fields != [] && MimeOneLine(fields[0])
    ensures var s := Behind(boundary, fields);
            var rest := DataOf(fields[0]) + Delimiter(boundary) + Behind(boundary, fields[1..]);
            && !(DASHES <= s) && CRLF <= s
            && ParseHeader(s[2..]) == Good(Spaced(fields[0].name), SpacedOption(fields[0].part.fileName), fields[0].part.mime, rest)
            && |s| > |rest|
  {
    hide ParseHeader, HeaderFields, Carried, ItemsOf, Delimiter;
    var rest := DataOf(fields[0]) + Delimiter(boundary) + Behind(boundary, fields[1..]);
    HeaderRoundTrip(fields[0], rest);
    assert Behind(boundary, fields)[2..] == HeaderFields(fields[0]) + rest;
  }

  lemma CleanPart(boundary: bytes, fields: seq<Field>)
    requires CR !in boundary && fields != [] && MimeOneLine(fields[0])
    requires Find(Delimiter(boundary), DataOf(fields[0])).None?
    ensures ParseParts(boundary, Behind(boundary, fields)) ==
            match ParseParts(boundary, Behind(boundary, fields[1..]))
            case None => None
            case Some(parts) => Some([Seen(fields[0])] + parts)
  {
    hide ParseHeader, HeaderFields, Carried, ItemsOf, Delimiter, Spaced, Find, Behind;
    var d, data := Delimiter(boundary), DataOf(fields[0]);
    var after := Behind(boundary, fields[1..]);
    var rest := data + d + after;
    PartStep(boundary, fields);
    DelimiterHasOneCr(boundary);
    FindAfterData(d, data, after);
    assert rest[|data| + |d|..] == after && rest[..|data|] == data;
  }

  lemma DirtyPart(boundary: bytes, fields: seq<Field>)
    requires fields != [] && MimeOneLine(fields[0])
    requires Find(Delimiter(boundary), DataOf(fields[0])).Some?
    ensures var r := ParseParts(boundary, Behind(boundary, fields));
            r.Some? ==> r.value != [] && |r.value[0].data| < |DataOf(fields[0])|
  {
    hide ParseHeader, HeaderFields, Carried, ItemsOf, Spaced, Find, Behind;
    var d, data := Delimiter(boundary), DataOf(fields[0]);
    var after := Behind(boundary, fields[1..]);
    PartStep(boundary, fields);
    ConcatAssoc(data, d, after);
    FindInsideData(d, data, d + after);
  }

  /** From behind a delimiter the parts come back exactly when no data contains the delimiter. */
  lemma {:induction false} PartsRoundTrip(boundary: bytes, fields: seq<Field>)
    requires CR !in boundary && forall i :: 0 <= i < |fields| ==> MimeOneLine(fields[i])
    ensures ParseParts(boundary, Behind(boundary, fields)) == Some(AllSeen(fields)) <==> Clean(boundary, fields)
    decreases |fields|
  {
    if fields != [] {
      hide ParseParts, Carried, ItemsOf, Delimiter, Spaced, Find, Behind, MimeOneLine;
      PartsRoundTrip(boundary, fields[1..]);
      CleanCons(boundary, fields);
      assert AllSeen(fields)[0] == Seen(fields[0]) && AllSeen(fields)[1..] == AllSeen(fields[1..]);
      if Find(Delimiter(boundary), DataOf(fields[0])).None? {
        CleanPart(boundary, fields);
      } else {
        DirtyPart(boundary, fields);
      }
    }
  }

  lemma CleanCons(boundary: bytes, fields: seq<Field>)
    requires fields != []
    ensures Clean(boundary, fields)
            <==> Find(Delimiter(boundary), DataOf(fields[0])).None? && Clean(boundary, fields[1..])
  {
    hide Find, Delimiter, Carried, ItemsOf;
    if Find(Delimiter(boundary), DataOf(fields[0])).None? && Clean(boundary, fields[1..]) {
      forall i | 0 <= i < |fields|
        ensures Find(Delimiter(boundary), DataOf(fields[i])).None?
      {
        if i > 0 { assert fields[1..][i - 1] == fields[i]; }
      }
    }
  }

  /** Splitting an encoded form gives back exactly its parts, in order, with their data, content
      type, file name and name (line ends read as spaces), if and only if the delimiter occurs in
      no part's data. */
  lemma FormRoundTrip(boundary: bytes, fields: seq<Field>)
    requires CR !in boundary && forall i :: 0 <= i < |fields| ==> MimeOneLine(fields[i])
    ensures ParseBody(boundary, Encoded(boundary, fields)) == Some(AllSeen(fields))
            <==> forall i :: 0 <= i < |fields| ==> !Occurs(Delimiter(boundary), DataOf(fields[i]))
  {
    hide ParseParts, Delimiter, Encoded, Behind, AllSeen, Find, Occurs, Carried, ItemsOf, MimeOneLine;
    var d, behind := Delimiter(boundary), Behind(boundary, fields);
    EncodedIsDelimited(boundary, fields);
    PartsRoundTrip(boundary, fields);
    FindAtOnce(d, behind);
    forall i | 0 <= i < |fields|
      ensures Find(d, DataOf(fields[i])).None? <==> !Occurs(d, DataOf(fields[i]))
    {
      FindMeansOccurs(d, DataOf(fields[i]));
    }
  }

  lemma FindAtOnce(d: bytes, rest: bytes)
    ensures Find(d, d + rest) == Some(0) && (d + rest)[|d|..] == rest
  {
  }

  // ---- generated boundaries ------------------------------------------------------------------

  function LowerHex(v: nat): byte
    requires v < 16
  {
    if v < 10 then 48 + v else 87 + v
  }

  function Pow16(n: nat): (r: nat)
    ensures r > 0
  {
    if n == 0 then 1 else 16 * Pow16(n - 1)
  }

  /** The lowest `width` hexadecimal digits of `n`, zero-filled. */
  function HexDigits(n: nat, width: nat): (r: bytes)
    ensures |r| == width
    ensures forall i :: 0 <= i < |r| ==> 48 <= r[i] <= 57 || 97 <= r[i] <= 102
  {
    if width == 0 then [] else HexDigits(n / 16, width - 1) + [LowerHex(n % 16)]
  }

  lemma {:induction false} HexDigitsInjective(a: nat, b: nat, width: nat)
    requires a < Pow16(width) && b < Pow16(width) && HexDigits(a, width) == HexDigits(b, width)
    ensures a == b
    decreases width
  {
    if width > 0 {
      var x, y := HexDigits(a, width), HexDigits(b, width);
      assert x[..width - 1] == HexDigits(a / 16, width - 1) && y[..width - 1] == HexDigits(b / 16, width - 1);
      assert x[width - 1] == LowerHex(a % 16) && y[width - 1] == LowerHex(b % 16);
      HexDigitsInjective(a / 16, b / 16, width - 1);
    }
  }

  /** `gen_boundary`: a fixed prefix, a random value and the process counter. */
  function GenBoundary(random: nat, count: nat): bytes {
    B("volo-http-boundary-") + HexDigits(random, 16) + HexDigits(count, 16)
  }

  /** Generated boundaries are 51 digits, lower-case letters and dashes, as section 5.1.1 of RFC 2046
      allows and the round trip needs, and differ whenever the counter or the random value
      differs. */
  lemma GeneratedBoundaries(r1: nat, c1: nat, r2: nat, c2: nat)
    requires c1 < Pow16(16) && c2 < Pow16(16) && r1 < Pow16(16) && r2 < Pow16(16)
    ensures |GenBoundary(r1, c1)| == 51
    ensures forall b :: b in GenBoundary(r1, c1) ==> 48 <= b <= 57 || 97 <= b <= 122 || b == 45
    ensures CR !in GenBoundary(r1, c1)
    ensures c1 != c2 || r1 != r2 ==> GenBoundary(r1, c1) != GenBoundary(r2, c2)
  {
    hide HexDigits;
    var a, b := GenBoundary(r1, c1), GenBoundary(r2, c2);
    PrefixIsPlain();
    assert a[35..] == HexDigits(c1, 16) && b[35..] == HexDigits(c2, 16);
    assert a[19..35] == HexDigits(r1, 16) && b[19..35] == HexDigits(r2, 16);
    if a == b {
      HexDigitsInjective(c1, c2, 16);
      HexDigitsInjective(r1, r2, 16);
    }
  }

  lemma PrefixIsPlain()
    ensures |B("volo-http-boundary-")| == 19
    ensures forall b :: b in B("volo-http-boundary-") ==> 97 <= b <= 122 || b == 45
  {
    var s := "volo-http-boundary-";
    forall i | 0 <= i < |s|
      ensures 97 <= B(s)[i] <= 122 || B(s)[i] == 45
    {
      assert s[i] in s;
    }
  }
}
