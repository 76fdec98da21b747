/** The `multipart/form-data` encoder: its escaping, its two paths and its lengths. */
module Multipart {
  import opened Bytes

  const CRLF: bytes := [CR, LF]
  const QUOTE: byte := 34
  const BACKSLASH: byte := 92
  const BLANK: byte := 32
  const DASHES: bytes := [45, 45]

  // ---- escaping ------------------------------------------------------------------------------

  predicate Special(b: byte) {
    b == BACKSLASH || b == QUOTE || b == CR || b == LF
  }

  function Replacement(b: byte): bytes
    requires Special(b)
  {
    if b == BACKSLASH || b == QUOTE then [BACKSLASH, b] else [BLANK]
  }

  /** The escaped text, byte by byte. */
  function Escaped(v: bytes): (r: bytes) {
    if v == [] then []
    else Escaped(v[..|v| - 1]) + if Special(v[|v| - 1]) then Replacement(v[|v| - 1]) else [v[|v| - 1]]
  }

  /** `extend_escaped`: copies runs of ordinary bytes and replaces the special ones. */
  method ExtendEscaped(buf: bytes, value: bytes) returns (r: bytes)
    ensures r == buf + Escaped(value)
  {
    r := buf;
    var start := 0;
    for i := 0 to |value|
      invariant 0 <= start <= i
      invariant r == buf + Escaped(value[..start])
      invariant forall j :: start <= j < i ==> !Special(value[j])
    {
      if Special(value[i]) {
        EscapedRun(value, start, i);
        assert value[..i + 1][..i] == value[..i];
        ghost var run, rep := value[start..i], Replacement(value[i]);
        assert buf + Escaped(value[..start]) + run + rep == buf + (Escaped(value[..start]) + run + rep);
        r := r + value[start..i] + Replacement(value[i]);
        start := i + 1;
      }
    }
    EscapedRun(value, start, |value|);
    assert value[..|value|] == value && value[start..] == value[start..|value|];
    assert buf + Escaped(value[..start]) + value[start..] == buf + (Escaped(value[..start]) + value[start..]);
    r := r + value[start..];
  }

  /** A run without special bytes is copied as it is. */
  lemma {:induction false} EscapedRun(v: bytes, start: nat, end: nat)
    requires start <= end <= |v| && forall j :: start <= j < end ==> !Special(v[j])
    ensures Escaped(v[..end]) == Escaped(v[..start]) + v[start..end]
    decreases end
  {
    if start == end {
      assert v[start..end] == [];
    } else {
      EscapedRun(v, start, end - 1);
      assert v[..end][..end - 1] == v[..end - 1];
      assert v[start..end] == v[start..end - 1] + [v[end - 1]];
    }
  }

  /** The value with line ends read as spaces. */
  function Spaced(v: bytes): (r: bytes)
    ensures |r| == |v|
  {
    seq(|v|, i requires 0 <= i < |v| => if v[i] == 13 || v[i] == 10 then 32 else v[i])
  }

  datatype Quoted = Unclosed | Closed(value: bytes, rest: bytes)

  /** A reference reading of a quoted-string up to its closing quote, undoing backslash escapes
      (section 3.2.6 of RFC 7230). */
  function ReadQuoted(s: bytes): (r: Quoted)
    ensures r.Closed? ==> |r.rest| < |s|
    decreases |s|
  {
    if s == [] || s[0] == 13 || s[0] == 10 then Unclosed
    else if s[0] == 34 then Closed([], s[1..])
    else if s[0] == 92 then
      if |s| == 1 then Unclosed
      else
        match ReadQuoted(s[2..])
        case Unclosed => Unclosed
        case Closed(value, rest) => Closed([s[1]] + value, rest)
    else
      match ReadQuoted(s[1..])
      case Unclosed => Unclosed
      case Closed(value, rest) => Closed([s[0]] + value, rest)
  }

  lemma {:induction false} EscapedCons(v: bytes)
    requires v != []
    ensures Escaped(v) == (if Special(v[0]) then Replacement(v[0]) else [v[0]]) + Escaped(v[1..])
    decreases |v|
  {
    var n := |v|;
    if n > 1 {
      EscapedCons(v[..n - 1]);
      assert v[..n - 1][1..] == v[1..][..n - 2];
    } else {
      assert v[..0] == [] && v[1..] == [];
    }
  }

  /** One byte of the value, as the scanner reads its escaped form. */
  lemma ReadOne(b: byte, tail: bytes)
    ensures var s := (if Special(b) then Replacement(b) else [b]) + tail;
            ReadQuoted(s) == match ReadQuoted(tail)
                             case Unclosed => Unclosed
                             case Closed(value, rest) => Closed([if b == CR || b == LF then BLANK else b] + value, rest)
  {
    var s := (if Special(b) then Replacement(b) else [b]) + tail;
    if b == BACKSLASH || b == QUOTE {
      assert s[2..] == tail;
    } else {
      assert s[1..] == tail;
    }
  }

  /** The scanner stops exactly at the quote the encoder writes, whatever follows, and gives back
      the value with line ends read as spaces. */
  lemma {:induction false} QuotedRoundTrip(v: bytes, rest: bytes)
    ensures ReadQuoted(Escaped(v) + [QUOTE] + rest) == Closed(Spaced(v), rest)
    decreases |v|
  {
    if v == [] {
      EmptyQuoted(rest);
    } else {
      hide Escaped, ReadQuoted, Replacement, Spaced;
      QuotedRoundTrip(v[1..], rest);
      EscapedCons(v);
      SpacedCons(v);
      var head := if Special(v[0]) then Replacement(v[0]) else [v[0]];
      ReadOne(v[0], Escaped(v[1..]) + [QUOTE] + rest);
      ConcatAssoc(head, Escaped(v[1..]), [QUOTE]);
      ConcatAssoc(head, Escaped(v[1..]) + [QUOTE], rest);
    }
  }

  lemma EmptyQuoted(rest: bytes)
    ensures ReadQuoted(Escaped([]) + [QUOTE] + rest) == Closed(Spaced([]), rest)
  {
    assert ([] + [QUOTE] + rest)[1..] == rest;
    assert Spaced([]) == [];
  }

  lemma SpacedCons(v: bytes)
    requires v != []
    ensures Spaced(v) == [if v[0] == CR || v[0] == LF then BLANK else v[0]] + Spaced(v[1..])
  {
  }

  /** Escaped text never contains a line end, so it cannot break the header apart. */
  lemma {:induction false} EscapedOneLine(v: bytes)
    ensures CR !in Escaped(v) && LF !in Escaped(v)
    decreases |v|
  {
    if v != [] {
      EscapedOneLine(v[..|v| - 1]);
    }
  }

  // ---- parts ---------------------------------------------------------------------------------

  /** One item of a stream: a chunk of data or a read error. */
  type Item = Result<bytes, bytes>

  datatype PartData = InMemory(data: bytes) | Stream(items: seq<Item>)

  datatype Part = Part(data: PartData, length: Option<nat>, fileName: Option<bytes>, mime: Option<bytes>)

  datatype Field = Field(name: bytes, part: Part)

  /** A part of in-memory bytes knows its length (`Part::new`). */
  predicate WellFormed(f: Field) {
    f.part.data.InMemory? ==> f.part.length == Some(|f.part.data.data|)
  }

  predicate AllWellFormed(fields: seq<Field>) {
    forall i :: 0 <= i < |fields| ==> WellFormed(fields[i])
  }

  function ItemsOf(d: PartData): seq<Item> {
    match d
    case InMemory(data) => [Ok(data)]
    case Stream(items) => items
  }

  /** The data carried by a run of items; errors carry none. */
  function Carried(items: seq<Item>): (r: bytes) {
    if items == [] then [] else (if items[0].Ok? then items[0].value else []) + Carried(items[1..])
  }

  lemma {:induction false} CarriedConcat(a: seq<Item>, b: seq<Item>)
    ensures Carried(a + b) == Carried(a) + Carried(b)
  {
    if a == [] {
      assert a + b == b;
    } else {
      assert (a + b)[1..] == a[1..] + b;
      CarriedConcat(a[1..], b);
    }
  }

  const DISPOSITION: bytes := B("Content-Disposition: form-data; name=\"")
  const FILENAME: bytes := B("; filename=\"")
  const CONTENT_TYPE: bytes := B("Content-Type: ")

  function FileNameText(fileName: Option<bytes>): bytes {
    if fileName.None? then [] else FILENAME + Escaped(fileName.value) + [QUOTE]
  }

  function MimeText(mime: Option<bytes>): bytes {
    if mime.None? then [] else CONTENT_TYPE + mime.value + CRLF
  }

  /** The header fields of a part, the blank line included. */
  function HeaderFields(f: Field): bytes {
    DISPOSITION + Escaped(f.name) + [QUOTE] + FileNameText(f.part.fileName) + CRLF
    + MimeText(f.part.mime) + CRLF
  }

  function Header(boundary: bytes, f: Field): bytes {
    DASHES + boundary + CRLF + HeaderFields(f)
  }

  /** `encode_header`. */
  method EncodeHeader(boundary: bytes, f: Field) returns (r: bytes)
    ensures r == Header(boundary, f)
  {
    hide DISPOSITION, FILENAME, CONTENT_TYPE, CRLF, DASHES, Escaped;
    var buf := DASHES + boundary + CRLF + DISPOSITION;
    buf := ExtendEscaped(buf, f.name);
    buf := buf + [QUOTE];
    ghost var start := buf;
    if f.part.fileName.Some? {
      ghost var before := buf;
      buf := buf + FILENAME;
      buf := ExtendEscaped(buf, f.part.fileName.value);
      buf := buf + [QUOTE];
      ghost var name := Escaped(f.part.fileName.value);
      ConcatAssoc(before, FILENAME, name);
      ConcatAssoc(before, FILENAME + name, [QUOTE]);
      assert buf == before + FileNameText(f.part.fileName);
    }
    assert buf == start + FileNameText(f.part.fileName);
    buf := buf + CRLF;
    ghost var middle := buf;
    if f.part.mime.Some? {
      ghost var before := buf;
      buf := buf + CONTENT_TYPE + f.part.mime.value + CRLF;
      ConcatAssoc(before, CONTENT_TYPE, f.part.mime.value);
      ConcatAssoc(before, CONTENT_TYPE + f.part.mime.value, CRLF);
      assert buf == before + MimeText(f.part.mime);
    }
    assert buf == middle + MimeText(f.part.mime);
    HeaderFlat(boundary, f);
    return buf + CRLF;
  }

  lemma HeaderFlat(boundary: bytes, f: Field)
    ensures Header(boundary, f)
         == DASHES + boundary + CRLF + DISPOSITION + Escaped(f.name) + [QUOTE]
            + FileNameText(f.part.fileName) + CRLF + MimeText(f.part.mime) + CRLF
  {
    hide DISPOSITION, FILENAME, CONTENT_TYPE, CRLF, DASHES, Escaped, FileNameText, MimeText;
    var start := DASHES + boundary + CRLF;
    ConcatAssoc(start, DISPOSITION, Escaped(f.name));
    ConcatAssoc(start, DISPOSITION + Escaped(f.name), [QUOTE]);
    ConcatAssoc(start, DISPOSITION + Escaped(f.name) + [QUOTE], FileNameText(f.part.fileName));
    var fields := DISPOSITION + Escaped(f.name) + [QUOTE] + FileNameText(f.part.fileName);
    ConcatAssoc(start, fields, CRLF);
    ConcatAssoc(start, fields + CRLF, MimeText(f.part.mime));
    ConcatAssoc(start, fields + CRLF + MimeText(f.part.mime), CRLF);
  }

  function Closing(boundary: bytes): bytes {
    DASHES + boundary + DASHES + CRLF
  }

  /** The encoded form. */
  function Encoded(boundary: bytes, fields: seq<Field>): (r: bytes)
    decreases |fields|
  {
    if fields == [] then Closing(boundary)
    else
      Header(boundary, fields[0]) + Carried(ItemsOf(fields[0].part.data)) + CRLF + Encoded(boundary, fields[1..])
  }

  /** The items of the streaming path. */
  function Items(boundary: bytes, fields: seq<Field>): (r: seq<Item>)
    decreases |fields|
  {
    if fields == [] then [Ok(Closing(boundary))]
    else
      [Ok(Header(boundary, fields[0]))] + ItemsOf(fields[0].part.data) + [Ok(CRLF)]
      + Items(boundary, fields[1..])
  }

  /** The streaming path carries exactly the encoded form. */
  lemma {:induction false} ItemsCarryEncoded(boundary: bytes, fields: seq<Field>)
    ensures Carried(Items(boundary, fields)) == Encoded(boundary, fields)
    decreases |fields|
  {
    hide Header, Closing;
    if fields == [] {
      assert Carried([Ok(Closing(boundary))]) == Closing(boundary) + Carried([Ok(Closing(boundary))][1..]);
    } else {
      var head: seq<Item> := [Ok(Header(boundary, fields[0]))];
      var data := ItemsOf(fields[0].part.data);
      var end: seq<Item> := [Ok(CRLF)];
      var rest := Items(boundary, fields[1..]);
      CarriedConcat(head + data + end, rest);
      CarriedConcat(head + data, end);
      CarriedConcat(head, data);
      assert head[1..] == [] && end[1..] == [];
      ItemsCarryEncoded(boundary, fields[1..]);
    }
  }

  // ---- lengths -------------------------------------------------------------------------------

  predicate LengthsKnown(fields: seq<Field>) {
    forall i :: 0 <= i < |fields| ==> fields[i].part.length.Some?
  }

  /** The declared length of the whole body. */
  function DeclaredLength(boundary: bytes, fields: seq<Field>): (n: nat)
    requires LengthsKnown(fields)
    ensures n >= |Closing(boundary)|
    decreases |fields|
  {
    if fields == [] then |Closing(boundary)|
    else |Header(boundary, fields[0])| + fields[0].part.length.value + 2 + DeclaredLength(boundary, fields[1..])
  }

  /** Declared minus actual length of the data. */
  function LengthError(fields: seq<Field>): (n: int)
    requires LengthsKnown(fields)
    decreases |fields|
  {
    if fields == [] then 0
    else fields[0].part.length.value - |Carried(ItemsOf(fields[0].part.data))| + LengthError(fields[1..])
  }

  /** The declared length is right exactly when the part lengths are right in total. */
  lemma {:induction false} DeclaredLengthExact(boundary: bytes, fields: seq<Field>)
    requires LengthsKnown(fields)
    ensures DeclaredLength(boundary, fields) == |Encoded(boundary, fields)| + LengthError(fields)
    decreases |fields|
  {
    hide Header, Closing;
    if fields != [] {
      DeclaredLengthExact(boundary, fields[1..]);
    }
  }

  /** A stream that ends early, such as a file cut short after its size was taken, makes the declared
      length too large. */
  lemma DeclaredLengthCanBeWrong(boundary: bytes, name: bytes)
    ensures var fields := [Field(name, Part(Stream([]), Some(1), None, None))];
            DeclaredLength(boundary, fields) == |Encoded(boundary, fields)| + 1
  {
    var fields := [Field(name, Part(Stream([]), Some(1), None, None))];
    DeclaredLengthExact(boundary, fields);
    assert fields[1..] == [];
    assert LengthError(fields) == 1 - |Carried([])| + LengthError(fields[1..]);
  }

  /** An in-memory form never has a wrong length. */
  lemma {:induction false} InMemoryLengths(fields: seq<Field>)
    requires AllWellFormed(fields) && forall i :: 0 <= i < |fields| ==> fields[i].part.data.InMemory?
    ensures LengthsKnown(fields) && LengthError(fields) == 0
    decreases |fields|
  {
    if fields != [] {
      assert WellFormed(fields[0]);
      var items := ItemsOf(fields[0].part.data);
      assert Carried(items) == fields[0].part.data.data + Carried(items[1..]);
      InMemoryLengths(fields[1..]);
    }
  }

  function CheckedAdd(a: nat, b: nat): Option<nat> {
    if a + b <= U64_MAX then Some(a + b) else None
  }

  /** One step of the running total; any missing length or overflow makes it unknown. */
  function AddPart(total: Option<nat>, header: nat, length: Option<nat>): Option<nat> {
    if total.None? || length.None? then None
    else
      match CheckedAdd(total.value, header)
      case None => None
      case Some(t1) =>
        match CheckedAdd(t1, length.value)
        case None => None
        case Some(t2) => CheckedAdd(t2, 2)
  }

  /** What the running total amounts to. */
  function TotalLength(boundary: bytes, fields: seq<Field>): Option<nat> {
    if LengthsKnown(fields) && DeclaredLength(boundary, fields) <= U64_MAX
    then Some(DeclaredLength(boundary, fields)) else None
  }

  // ---- the two paths -------------------------------------------------------------------------

  datatype Body = Whole(data: bytes) | Sized(items: seq<Item>, exact: nat) | Unsized(items: seq<Item>)

  /** Assembles an all-in-memory form into one buffer. */
  method FastPath(boundary: bytes, fields: seq<Field>) returns (buf: bytes)
    requires forall i :: 0 <= i < |fields| ==> fields[i].part.data.InMemory?
    ensures buf == Encoded(boundary, fields)
  {
    hide Header, Closing;
    buf := [];
    for i := 0 to |fields|
      invariant buf + Encoded(boundary, fields[i..]) == Encoded(boundary, fields)
    {
      var header := EncodeHeader(boundary, fields[i]);
      var data := fields[i].part.data.data;
      EncodedStep(boundary, fields, i);
      ghost var rest := Encoded(boundary, fields[i + 1..]);
      assert buf + (header + data + CRLF + rest) == (buf + header + data + CRLF) + rest;
      buf := buf + header;
      buf := buf + data;
      buf := buf + CRLF;
    }
    assert fields[|fields|..] == [];
    buf := buf + Closing(boundary);
  }

  lemma EncodedStep(boundary: bytes, fields: seq<Field>, i: nat)
    requires i < |fields|
    ensures Encoded(boundary, fields[i..])
         == Header(boundary, fields[i]) + Carried(ItemsOf(fields[i].part.data)) + CRLF + Encoded(boundary, fields[i + 1..])
    ensures fields[i].part.data.InMemory? ==> Carried(ItemsOf(fields[i].part.data)) == fields[i].part.data.data
  {
    hide Header;
    assert fields[i..][1..] == fields[i + 1..];
    if fields[i].part.data.InMemory? {
      var items := ItemsOf(fields[i].part.data);
      assert Carried(items) == items[0].value + Carried(items[1..]);
    }
  }

  /** Chains the streams of all parts and totals their lengths. */
  method StreamingPath(boundary: bytes, fields: seq<Field>) returns (items: seq<Item>, exact: Option<nat>)
    requires |Closing(boundary)| <= U64_MAX
    ensures items == Items(boundary, fields)
    ensures exact == TotalLength(boundary, fields)
  {
    hide Header, Closing, ItemsOf;
    exact := Some(|Closing(boundary)|);
    items := [];
    ghost var total := |Closing(boundary)|;
    for i := 0 to |fields|
      invariant items + Items(boundary, fields[i..]) == Items(boundary, fields)
      invariant Outstanding(boundary, fields, i, exact)
    {
      var header := EncodeHeader(boundary, fields[i]);
      OutstandingStep(boundary, fields, i, exact);
      exact := AddPart(exact, |header|, fields[i].part.length);
      ghost var rest := Items(boundary, fields[i + 1..]);
      assert fields[i..][1..] == fields[i + 1..];
      ghost var block := [Ok(header)] + ItemsOf(fields[i].part.data) + [Ok(CRLF)];
      assert items + (block + rest) == (items + block) + rest;
      assert items + block == items + [Ok(header)] + ItemsOf(fields[i].part.data) + [Ok(CRLF)];
      items := items + [Ok(header)];
      items := items + ItemsOf(fields[i].part.data);
      items := items + [Ok(CRLF)];
    }
    assert fields[|fields|..] == [];
    assert fields[..|fields|] == fields;
    items := items + [Ok(Closing(boundary))];
  }

  /** After `i` parts the running total is the declared length of the form made of those parts. */
  ghost predicate Outstanding(boundary: bytes, fields: seq<Field>, i: nat, exact: Option<nat>)
    requires i <= |fields|
  {
    exact == TotalLength(boundary, fields[..i])
  }

  lemma OutstandingStep(boundary: bytes, fields: seq<Field>, i: nat, exact: Option<nat>)
    requires i < |fields| && Outstanding(boundary, fields, i, exact)
    ensures Outstanding(boundary, fields, i + 1, AddPart(exact, |Header(boundary, fields[i])|, fields[i].part.length))
  {
    hide Header, Closing;
    var now, next := fields[..i], fields[..i + 1];
    assert next == now + [fields[i]];
    if LengthsKnown(next) {
      assert fields[i].part.length.Some? by { assert next[i] == fields[i]; }
      assert LengthsKnown(now) by {
        forall k | 0 <= k < i ensures now[k].part.length.Some? { assert next[k] == now[k]; }
      }
      DeclaredLengthSnoc(boundary, now, fields[i]);
    } else if LengthsKnown(now) {
      assert fields[i].part.length.None?;
    }
  }

  lemma {:induction false} DeclaredLengthSnoc(boundary: bytes, fields: seq<Field>, f: Field)
    requires LengthsKnown(fields) && f.part.length.Some?
    ensures LengthsKnown(fields + [f])
    ensures DeclaredLength(boundary, fields + [f])
         == DeclaredLength(boundary, fields) + |Header(boundary, f)| + f.part.length.value + 2
    decreases |fields|
  {
    hide Header, Closing;
    var all := fields + [f];
    assert LengthsKnown(all);
    if fields == [] {
      assert all == [f] && all[1..] == [];
    } else {
      assert all[1..] == fields[1..] + [f];
      DeclaredLengthSnoc(boundary, fields[1..], f);
    }
  }

  /** `into_body`. An exact length is published exactly when every part length is known and their
      sum does not overflow 64 bits. */
  method IntoBody(boundary: bytes, fields: seq<Field>) returns (r: Body)
    requires |Closing(boundary)| <= U64_MAX
    ensures r.Whole? <==> forall i :: 0 <= i < |fields| ==> fields[i].part.data.InMemory?
    ensures r.Whole? ==> r.data == Encoded(boundary, fields)
    ensures !r.Whole? ==> r.items == Items(boundary, fields) && Carried(r.items) == Encoded(boundary, fields)
    ensures !r.Whole? ==> (r.Sized? <==> LengthsKnown(fields) && DeclaredLength(boundary, fields) <= U64_MAX)
    ensures r.Sized? ==> LengthsKnown(fields) && r.exact == |Carried(r.items)| + LengthError(fields)
  {
    hide Encoded, Closing, Carried, Items;
    if forall i :: 0 <= i < |fields| ==> fields[i].part.data.InMemory? {
      var data := FastPath(boundary, fields);
      return Whole(data);
    }
    var items, exact := StreamingPath(boundary, fields);
    ItemsCarryEncoded(boundary, fields);
    if exact.None? {
      return Unsized(items);
    }
    DeclaredLengthExact(boundary, fields);
    return Sized(items, exact.value);
  }

  /** For an all-in-memory form the two paths produce the same bytes, and the streaming path would
      publish exactly their number. */
  method PathsAgree(boundary: bytes, fields: seq<Field>) returns (fast: bytes, items: seq<Item>, exact: Option<nat>)
    requires AllWellFormed(fields) && forall i :: 0 <= i < |fields| ==> fields[i].part.data.InMemory?
    requires |Closing(boundary)| <= U64_MAX
    ensures fast == Carried(items)
    ensures exact == if |fast| <= U64_MAX then Some(|fast|) else None
  {
    hide Encoded, Closing, Carried, Items;
    fast := FastPath(boundary, fields);
    items, exact := StreamingPath(boundary, fields);
    ItemsCarryEncoded(boundary, fields);
    InMemoryLengths(fields);
    DeclaredLengthExact(boundary, fields);
  }
}
