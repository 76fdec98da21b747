/** The server's event writer and the round trip from it to the client's reader. */
module SseStream {
  import opened Bytes
  import opened SseLines
  import opened Sse
  import opened SseCuts
  import Decimal
  import Utf8

  // ---- the server's event writer -------------------------------------------------------------

  datatype Field =
    | Data(value: bytes)
    | Name(value: bytes)
    | Id(value: bytes)
    | Retry(ms: nat)
    | Comment(value: bytes)

  /** What the writer accepts: valid text without CR, and without LF except in data. */
  predicate Accepted(f: Field) {
    f.Retry? || (Utf8.Valid(f.value) && CR !in f.value && (f.Data? || LF !in f.value))
  }

  /** The lines of a text, cut at LF. */
  function SplitLf(s: bytes): (r: seq<bytes>)
    ensures |r| > 0
  {
    if s == [] then [[]]
    else
      var rest := SplitLf(s[1..]);
      if s[0] == LF then [[]] + rest else [[s[0]] + rest[0]] + rest[1..]
  }

  function FieldLine(key: bytes, value: bytes): bytes {
    key + [COLON, SPACE] + value
  }

  function DataLines(pieces: seq<bytes>): (r: seq<bytes>)
    ensures |r| == |pieces|
  {
    seq(|pieces|, i requires 0 <= i < |pieces| => FieldLine(DATA, pieces[i]))
  }

  /** The lines a field is written as. */
  function FieldLines(f: Field): seq<bytes> {
    match f
    case Data(v) => DataLines(SplitLf(v))
    case Name(v) => [FieldLine(EVENT, v)]
    case Id(v) => [FieldLine(ID, v)]
    case Retry(ms) => [FieldLine(RETRY, Decimal.Digits(ms))]
    case Comment(v) => [FieldLine([], v)]
  }

  function AllLines(fields: seq<Field>): (r: seq<bytes>) {
    if fields == [] then [] else FieldLines(fields[0]) + AllLines(fields[1..])
  }

  /** The text of a sequence of lines. */
  function Terminate(lines: seq<bytes>): (r: bytes) {
    if lines == [] then [] else lines[0] + [LF] + Terminate(lines[1..])
  }

  lemma {:induction false} TerminateConcat(a: seq<bytes>, b: seq<bytes>)
    ensures Terminate(a + b) == Terminate(a) + Terminate(b)
  {
    if a == [] {
      assert a + b == b;
    } else {
      assert (a + b)[1..] == a[1..] + b;
      TerminateConcat(a[1..], b);
    }
  }

  lemma {:induction false} AllLinesSnoc(fields: seq<Field>, f: Field)
    ensures AllLines(fields + [f]) == AllLines(fields) + FieldLines(f)
  {
    hide FieldLines;
    if fields == [] {
      assert fields + [f] == [f];
      assert AllLines([f]) == FieldLines(f) + AllLines([f][1..]) == FieldLines(f);
    } else {
      assert (fields + [f])[1..] == fields[1..] + [f];
      AllLinesSnoc(fields[1..], f);
      ConcatAssoc(FieldLines(fields[0]), AllLines(fields[1..]), FieldLines(f));
    }
  }

  /** A finished event: its fields, and whether a blank line closes it. */
  datatype Sent = Sent(fields: seq<Field>, closed: bool)

  function SentText(s: Sent): bytes {
    Terminate(AllLines(s.fields)) + if s.closed then [LF] else []
  }

  /** JSON text is serialised without line ends. */
  predicate JsonText(v: bytes) {
    Utf8.Valid(v) && CR !in v && LF !in v
  }

  /** The line of a field that takes just one. */
  function SingleLine(f: Field): bytes
    requires !f.Data?
  {
    FieldLines(f)[0]
  }

  /** A field written right behind a JSON value becomes part of that value. */
  function Joined(json: Option<bytes>, f: Field): Field
    requires !f.Data?
  {
    if json.None? then f else Data(json.value + SingleLine(f))
  }

  function OpenLine(json: Option<bytes>): bytes {
    if json.None? then [] else FieldLine(DATA, json.value)
  }

  /** The server's `Event`: a buffer to which fields are written as they are set. `json` does not
      end its line: `open` is the value whose line is still open. */
  class EventWriter {
    var buffer: bytes
    var hasEvent: bool
    var hasData: bool
    var hasId: bool
    var hasRetry: bool
    ghost var fields: seq<Field>
    ghost var open: Option<bytes>

    constructor ()
      ensures Valid() && fields == [] && open == None && !hasEvent && !hasData && !hasId && !hasRetry
    {
      buffer, fields, open := [], [], None;
      hasEvent, hasData, hasId, hasRetry := false, false, false, false;
    }

    ghost predicate Valid()
      reads this
    {
      && buffer == Terminate(AllLines(fields)) + OpenLine(open)
      && (forall i :: 0 <= i < |fields| ==> Accepted(fields[i]))
      && (open.Some? ==> hasData && JsonText(open.value))
    }

    /** `field`: one line, behind whatever line is still open. */
    method Line(key: bytes, value: bytes, ghost f: Field)
      requires Valid() && Accepted(f) && !f.Data? && SingleLine(f) == FieldLine(key, value)
      modifies this`buffer, this`fields, this`open
      ensures Valid() && fields == old(fields) + [Joined(old(open), f)] && open == None
    {
      hide FieldLine, Terminate, AllLines, Accepted, JsonText;
      JoinedLine(open, f);
      Written(fields, open, f);
      buffer := buffer + FieldLine(key, value) + [LF];
      fields, open := fields + [Joined(open, f)], None;
    }

    method SetEvent(v: bytes)
      requires Valid() && !hasEvent && Accepted(Name(v))
      modifies this
      ensures Valid() && fields == old(fields) + [Joined(old(open), Name(v))] && open == None && hasEvent
    {
      hasEvent := true;
      Line(EVENT, v, Name(v));
    }

    method SetId(v: bytes)
      requires Valid() && !hasId && Accepted(Id(v))
      modifies this
      ensures Valid() && fields == old(fields) + [Joined(old(open), Id(v))] && open == None && hasId
    {
      hasId := true;
      Line(ID, v, Id(v));
    }

    method SetRetry(ms: nat)
      requires Valid() && !hasRetry
      modifies this
      ensures Valid() && fields == old(fields) + [Joined(old(open), Retry(ms))] && open == None && hasRetry
    {
      hasRetry := true;
      Line(RETRY, Decimal.Digits(ms), Retry(ms));
    }

    method AddComment(v: bytes)
      requires Valid() && Accepted(Comment(v))
      modifies this
      ensures Valid() && fields == old(fields) + [Joined(old(open), Comment(v))] && open == None
    {
      Line([], v, Comment(v));
    }

    /** Each line of the data becomes a field of its own. */
    method SetData(v: bytes)
      requires Valid() && !hasData && Accepted(Data(v))
      modifies this
      ensures Valid() && fields == old(fields) + [Data(v)] && open == None && hasData
    {
      hide SplitLf, Accepted, JsonText, AllLines, Terminate, DataLines;
      hasData := true;
      assert Terminate(AllLines(fields)) + [] == Terminate(AllLines(fields));
      DataWritten(fields, v);
      WritePieces(SplitLf(v));
      fields := fields + [Data(v)];
    }

    method WritePieces(pieces: seq<bytes>)
      modifies this`buffer
      ensures buffer == old(buffer) + Terminate(DataLines(pieces))
    {
      hide FieldLine, Terminate, DataLines;
      NothingWritten(pieces);
      assert buffer + [] == buffer;
      for i := 0 to |pieces|
        invariant buffer == old(buffer) + Terminate(DataLines(pieces)[..i])
      {
        PieceWritten(old(buffer), pieces, i);
        buffer := buffer + FieldLine(DATA, pieces[i]) + [LF];
      }
      assert DataLines(pieces)[..|pieces|] == DataLines(pieces);
    }

    /** `json`: the line is left open. */
    method SetJson(v: bytes)
      requires Valid() && !hasData && JsonText(v)
      modifies this
      ensures Valid() && fields == old(fields) && open == Some(v) && hasData
    {
      hide FieldLine, Terminate, AllLines, Accepted, JsonText;
      hasData := true;
      assert Terminate(AllLines(fields)) + [] == Terminate(AllLines(fields));
      buffer := buffer + FieldLine(DATA, v);
      open := Some(v);
    }

    /** `finalize`: its newline makes the blank line, or ends the line that is still open. */
    method Finalize() returns (text: bytes)
      requires Valid()
      ensures text == SentText(Finished(fields, open)) && WellSent(Finished(fields, open))
    {
      hide FieldLine, Terminate, AllLines, Accepted;
      if open.Some? {
        JsonLine(open.value);
        TerminateOne(FieldLine(DATA, open.value), Terminate(AllLines(fields)));
        AllLinesSnoc(fields, Data(open.value));
        TerminateConcat(AllLines(fields), [FieldLine(DATA, open.value)]);
        assert SentText(Finished(fields, open)) == Terminate(AllLines(fields + [Data(open.value)])) + [];
      } else {
        assert Terminate(AllLines(fields)) + [] == Terminate(AllLines(fields));
      }
      return buffer + [LF];
    }
  }

  lemma NothingWritten(pieces: seq<bytes>)
    ensures Terminate(DataLines(pieces)[..0]) == []
  {
  }

  lemma PieceWritten(before: bytes, pieces: seq<bytes>, i: nat)
    requires i < |pieces|
    ensures before + Terminate(DataLines(pieces)[..i]) + FieldLine(DATA, pieces[i]) + [LF]
         == before + Terminate(DataLines(pieces)[..i + 1])
  {
    hide FieldLine, Terminate;
    var lines := DataLines(pieces);
    assert lines[..i + 1] == lines[..i] + [lines[i]];
    TerminateConcat(lines[..i], [lines[i]]);
    TerminateOne(lines[i], before + Terminate(lines[..i]));
    ConcatAssoc(before, Terminate(lines[..i]), Terminate([lines[i]]));
  }

  lemma DataWritten(fields: seq<Field>, v: bytes)
    ensures Terminate(AllLines(fields)) + Terminate(DataLines(SplitLf(v)))
         == Terminate(AllLines(fields + [Data(v)])) + []
  {
    hide AllLines, Terminate, DataLines, SplitLf;
    TerminateConcat(AllLines(fields), DataLines(SplitLf(v)));
    AllLinesSnoc(fields, Data(v));
  }

  function Finished(fields: seq<Field>, open: Option<bytes>): Sent {
    if open.None? then Sent(fields, true) else Sent(fields + [Data(open.value)], false)
  }

  /** What the writer can produce. */
  predicate WellSent(s: Sent) {
    && (forall i :: 0 <= i < |s.fields| ==> Accepted(s.fields[i]))
    && (!s.closed ==> s.fields != [] && s.fields[|s.fields| - 1].Data?)
  }

  lemma JsonLine(v: bytes)
    requires JsonText(v)
    ensures FieldLines(Data(v)) == [FieldLine(DATA, v)] && Accepted(Data(v))
  {
    SplitLfAt(v);
  }

  /** A joined field is accepted and takes one line, the open line with the field's own behind it. */
  lemma JoinedLine(json: Option<bytes>, f: Field)
    requires (json.Some? ==> JsonText(json.value)) && Accepted(f) && !f.Data?
    ensures Accepted(Joined(json, f))
    ensures FieldLines(Joined(json, f)) == [OpenLine(json) + SingleLine(f)]
  {
    hide Utf8.Valid, FieldLine;
    SingleLinePlain(f);
    if json.Some? {
      var v := json.value + SingleLine(f);
      Utf8.ValidConcat(json.value, SingleLine(f));
      JsonLine(v);
      OpenLineJoins(json.value, SingleLine(f));
    } else {
      assert [] + SingleLine(f) == SingleLine(f);
    }
  }

  lemma OpenLineJoins(v: bytes, line: bytes)
    ensures FieldLine(DATA, v + line) == FieldLine(DATA, v) + line
  {
    ConcatAssoc(DATA + [COLON, SPACE], v, line);
  }

  lemma SingleLinePlain(f: Field)
    requires Accepted(f) && !f.Data?
    ensures JsonText(SingleLine(f))
  {
    hide Utf8.Valid, FieldLine, Decimal.Digits;
    match f
    case Name(v) => FieldLinePlain(EVENT, v);
    case Id(v) => FieldLinePlain(ID, v);
    case Retry(ms) =>
      DigitsArePlain(ms);
      FieldLinePlain(RETRY, Decimal.Digits(ms));
    case Comment(v) => FieldLinePlain([], v);
  }

  lemma Written(fields: seq<Field>, open: Option<bytes>, f: Field)
    requires !f.Data? && FieldLines(Joined(open, f)) == [OpenLine(open) + SingleLine(f)]
    ensures Terminate(AllLines(fields)) + OpenLine(open) + SingleLine(f) + [LF]
         == Terminate(AllLines(fields + [Joined(open, f)])) + []
  {
    hide FieldLines, OpenLine, AllLines, Terminate;
    var before, line := Terminate(AllLines(fields)), OpenLine(open) + SingleLine(f);
    AllLinesSnoc(fields, Joined(open, f));
    TerminateConcat(AllLines(fields), [line]);
    TerminateOne(line, before);
    ConcatAssoc(before, OpenLine(open), SingleLine(f));
  }

  lemma TerminateOne(line: bytes, before: bytes)
    ensures before + line + [LF] == before + Terminate([line])
  {
    assert Terminate([line]) == line + [LF] + Terminate([line][1..]);
    ConcatAssoc(before, line, [LF]);
  }

  // ---- round trip ----------------------------------------------------------------------------

  /** What a field means to a reader. */
  function Apply(acc: Event, f: Field): Event {
    match f
    case Data(v) => acc.(data := Some(if acc.data.Some? then acc.data.value + [LF] + v else v))
    case Name(v) => acc.(event := Some(v))
    case Id(v) => if NUL in v then acc else acc.(id := Some(v))
    case Retry(ms) => if ms <= U64_MAX then acc.(retry := Some(ms)) else acc
    case Comment(_) => acc
  }

  function Meaning(acc: Event, fields: seq<Field>): Event
    decreases |fields|
  {
    if fields == [] then acc else Meaning(Apply(acc, fields[0]), fields[1..])
  }

  /** The events a stream of sent events stands for: each closed one that sets a field ends an
      event, together with the open ones before it; the identifier is that of the latest event that
      carried one. */
  function Expected(acc: Event, lastId: bytes, sent: seq<Sent>): (r: seq<Dispatched>)
    decreases |sent|
  {
    if sent == [] then if acc == EMPTY then [] else [Dispatch(acc, lastId)]
    else
      var e := Meaning(acc, sent[0].fields);
      if !sent[0].closed || e == EMPTY then Expected(e, lastId, sent[1..])
      else
        var d := Dispatch(e, lastId);
        [d] + Expected(EMPTY, d.lastId, sent[1..])
  }

  function SentLines(s: Sent): seq<bytes> {
    AllLines(s.fields) + if s.closed then [[]] else []
  }

  function StreamText(sent: seq<Sent>): (r: bytes) {
    if sent == [] then [] else SentText(sent[0]) + StreamText(sent[1..])
  }

  function StreamLines(sent: seq<Sent>): (r: seq<bytes>) {
    if sent == [] then [] else SentLines(sent[0]) + StreamLines(sent[1..])
  }

  predicate AllWellSent(sent: seq<Sent>) {
    forall i :: 0 <= i < |sent| ==> WellSent(sent[i])
  }

  /** A line as the reader takes it: no line end in it, valid text, not starting with a byte order
      mark. */
  predicate PlainLine(line: bytes) {
    CR !in line && LF !in line && Utf8.Valid(line) && !(BOM <= line)
  }

  predicate PlainLines(lines: seq<bytes>) {
    forall i :: 0 <= i < |lines| ==> PlainLine(lines[i])
  }

  lemma FieldLineReads(key: bytes, value: bytes)
    requires COLON !in key
    ensures FieldLine(key, value)[..ColonAt(FieldLine(key, value))] == key
    ensures ValueOf(FieldLine(key, value)) == value
    ensures FieldLine(key, value) != []
  {
    var line := FieldLine(key, value);
    var n := ColonAt(line);
    assert line[|key|] == COLON;
    forall i | 0 <= i < |key|
      ensures line[i] != COLON
    {
      assert key[i] in key;
    }
    assert n == |key|;
  }

  lemma FieldLinePlain(key: bytes, value: bytes)
    requires key in {DATA, EVENT, ID, RETRY, []}
    requires CR !in value && LF !in value && Utf8.Valid(value)
    ensures PlainLine(FieldLine(key, value))
  {
    hide Utf8.Valid;
    var head := key + [COLON, SPACE];
    KeyIsAscii(key);
    Utf8.AsciiValid(head);
    Utf8.ValidConcat(head, value);
    assert FieldLine(key, value)[0] == head[0];
  }

  lemma KeyIsAscii(key: bytes)
    requires key in {DATA, EVENT, ID, RETRY, []}
    ensures var head := key + [COLON, SPACE];
            CR !in head && LF !in head && forall i :: 0 <= i < |head| ==> head[i] < 0x80
  {
  }

  lemma {:induction false} SplitLfPieces(s: bytes)
    requires CR !in s && Utf8.Valid(s)
    ensures forall i :: 0 <= i < |SplitLf(s)| ==>
              CR !in SplitLf(s)[i] && LF !in SplitLf(s)[i] && Utf8.Valid(SplitLf(s)[i])
    decreases |s|
  {
    hide Utf8.Valid, SplitLf;
    var n := FirstLf(s);
    SplitLfAt(s);
    if n < |s| {
      assert s == s[..n] + [LF] + s[n + 1..];
      Utf8.ValidCutAtAscii(s[..n], LF, s[n + 1..]);
      SplitLfPieces(s[n + 1..]);
    }
  }

  function FirstLf(s: bytes): (n: nat)
    ensures n <= |s| && LF !in s[..n] && (n < |s| ==> s[n] == LF)
  {
    if s == [] || s[0] == LF then 0 else 1 + FirstLf(s[1..])
  }

  lemma {:induction false} SplitLfAt(s: bytes)
    ensures SplitLf(s) == if FirstLf(s) == |s| then [s] else [s[..FirstLf(s)]] + SplitLf(s[FirstLf(s) + 1..])
  {
    if s != [] && s[0] != LF {
      SplitLfAt(s[1..]);
      var n := FirstLf(s);
      assert s == [s[0]] + s[1..];
      if n < |s| {
        assert s[1..][n..] == s[n + 1..];
        assert [s[0]] + s[1..][..n - 1] == s[..n];
      }
    }
  }

  /** The data lines collect to the data, joined by LF. */
  lemma {:induction false} DataCollects(acc: Event, lastId: bytes, v: bytes)
    requires CR !in v && Utf8.Valid(v)
    ensures Feed(acc, lastId, DataLines(SplitLf(v))) == Fed([], Apply(acc, Data(v)), lastId)
    decreases |v|
  {
    hide Utf8.Valid, Collect, SplitLf;
    SplitLfAt(v);
    var n := FirstLf(v);
    var lines := DataLines(SplitLf(v));
    var piece := v[..n];
    var line := FieldLine(DATA, piece);
    var next := Collect(acc, line);
    CollectData(acc, piece);
    if n == |v| {
      assert piece == v && lines == [line];
      assert lines[1..] == [];
    } else {
      assert v == piece + [LF] + v[n + 1..];
      Utf8.ValidCutAtAscii(piece, LF, v[n + 1..]);
      assert lines[0] == line && lines[1..] == DataLines(SplitLf(v[n + 1..]));
      DataCollects(next, lastId, v[n + 1..]);
      ApplyTwice(acc, piece, v[n + 1..]);
    }
  }

  lemma CollectData(acc: Event, value: bytes)
    ensures Collect(acc, FieldLine(DATA, value)) == Apply(acc, Data(value)) && FieldLine(DATA, value) != []
  {
    assert COLON !in DATA;
    FieldLineReads(DATA, value);
  }

  lemma ApplyTwice(acc: Event, a: bytes, b: bytes)
    ensures Apply(Apply(acc, Data(a)), Data(b)) == Apply(acc, Data(a + [LF] + b))
  {
    if acc.data.Some? {
      var d := acc.data.value;
      assert d + [LF] + a + [LF] + b == d + [LF] + (a + [LF] + b);
    }
  }

  lemma CollectOther(acc: Event, key: bytes, value: bytes)
    requires key in {EVENT, ID, RETRY, []}
    ensures Collect(acc, FieldLine(key, value)) ==
            if key == EVENT then acc.(event := Some(value))
            else if key == ID then if NUL in value then acc else acc.(id := Some(value))
            else if key == RETRY && Decimal.ParseU64(value).Some? then acc.(retry := Decimal.ParseU64(value))
            else acc
  {
    hide Decimal.ParseU64, FieldLine;
    assert COLON !in key;
    FieldLineReads(key, value);
  }

  lemma DataFieldPlain(v: bytes)
    requires Accepted(Data(v))
    ensures PlainLines(DataLines(SplitLf(v)))
  {
    hide Utf8.Valid, PlainLine, FieldLine, SplitLf;
    SplitLfPieces(v);
    forall i | 0 <= i < |SplitLf(v)|
      ensures PlainLine(DataLines(SplitLf(v))[i])
    {
      FieldLinePlain(DATA, SplitLf(v)[i]);
    }
  }

  lemma DigitsArePlain(ms: nat)
    ensures var d := Decimal.Digits(ms); CR !in d && LF !in d && Utf8.Valid(d)
  {
    var digits := Decimal.Digits(ms);
    assert forall b :: b in digits ==> Decimal.IsDigit(b);
    Utf8.AsciiValid(digits);
  }

  lemma FieldCollects(acc: Event, lastId: bytes, f: Field)
    requires Accepted(f)
    ensures Feed(acc, lastId, FieldLines(f)) == Fed([], Apply(acc, f), lastId)
    ensures PlainLines(FieldLines(f))
  {
    hide Utf8.Valid, PlainLine, FieldLine, Collect, Feed, DataLines, Decimal.ParseU64;
    match f
    case Data(v) =>
      DataCollects(acc, lastId, v);
      DataFieldPlain(v);
    case Name(v) =>
      OneLine(acc, lastId, EVENT, v);
      CollectOther(acc, EVENT, v);
    case Id(v) =>
      OneLine(acc, lastId, ID, v);
      CollectOther(acc, ID, v);
    case Retry(ms) =>
      Decimal.ParseDigits(ms);
      DigitsArePlain(ms);
      OneLine(acc, lastId, RETRY, Decimal.Digits(ms));
      CollectOther(acc, RETRY, Decimal.Digits(ms));
    case Comment(v) =>
      OneLine(acc, lastId, [], v);
      CollectOther(acc, [], v);
  }

  lemma OneLine(acc: Event, lastId: bytes, key: bytes, value: bytes)
    requires key in {EVENT, ID, RETRY, []}
    requires CR !in value && LF !in value && Utf8.Valid(value)
    ensures PlainLine(FieldLine(key, value))
    ensures Feed(acc, lastId, [FieldLine(key, value)]) == Fed([], Collect(acc, FieldLine(key, value)), lastId)
  {
    hide Collect, FieldLine;
    assert COLON !in key;
    FieldLineReads(key, value);
    FieldLinePlain(key, value);
    assert [FieldLine(key, value)][1..] == [];
  }

  lemma {:induction false} FieldsCollect(acc: Event, lastId: bytes, fields: seq<Field>)
    requires forall i :: 0 <= i < |fields| ==> Accepted(fields[i])
    ensures Feed(acc, lastId, AllLines(fields)) == Fed([], Meaning(acc, fields), lastId)
    ensures PlainLines(AllLines(fields))
    decreases |fields|
  {
    hide FieldLines, Apply, PlainLine, Accepted;
    if fields != [] {
      FieldCollects(acc, lastId, fields[0]);
      FieldsCollect(Apply(acc, fields[0]), lastId, fields[1..]);
      FeedConcat(acc, lastId, FieldLines(fields[0]), AllLines(fields[1..]));
    }
  }

  lemma BlankPlain()
    ensures PlainLine([])
  {
  }

  /** The lines of a stream mean exactly the expected events. */
  lemma {:induction false} StreamFeeds(acc: Event, lastId: bytes, sent: seq<Sent>)
    requires AllWellSent(sent)
    ensures Events(acc, lastId, StreamLines(sent), true) == Expected(acc, lastId, sent)
    ensures PlainLines(StreamLines(sent))
    decreases |sent|
  {
    hide AllLines, Dispatch, PlainLine, Accepted, Events, Meaning;
    if sent == [] {
      NoMoreLines(acc, lastId, true);
    } else {
      assert WellSent(sent[0]);
      var fields, rest := sent[0].fields, StreamLines(sent[1..]);
      FieldsCollect(acc, lastId, fields);
      var e := Meaning(acc, fields);
      BlankPlain();
      if sent[0].closed {
        ConcatAssoc(AllLines(fields), [[]], rest);
        EventsConcat(acc, lastId, AllLines(fields), [[]] + rest, true);
        EventsStep(e, lastId, [], rest, true);
        StreamFeeds(EMPTY, if e == EMPTY then lastId else Dispatch(e, lastId).lastId, sent[1..]);
      } else {
        assert AllLines(fields) + [] == AllLines(fields);
        EventsConcat(acc, lastId, AllLines(fields), rest, true);
        StreamFeeds(e, lastId, sent[1..]);
      }
    }
  }

  lemma {:induction false} StreamTextIsLines(sent: seq<Sent>)
    ensures StreamText(sent) == Terminate(StreamLines(sent))
  {
    hide AllLines;
    if sent != [] {
      StreamTextIsLines(sent[1..]);
      TerminateConcat(SentLines(sent[0]), StreamLines(sent[1..]));
      var blank: seq<bytes> := if sent[0].closed then [[]] else [];
      TerminateConcat(AllLines(sent[0].fields), blank);
      assert sent[0].closed ==> blank[1..] == [];
    }
  }

  lemma {:induction false} LinesOfTerminated(lines: seq<bytes>)
    requires PlainLines(lines)
    ensures Lines(Terminate(lines)) == Cut(lines, [])
    ensures CR !in Terminate(lines)
    decreases |lines|
  {
    hide PlainLine, EolAt, Lines;
    if lines == [] {
      EmptyLines();
    } else {
      var line := lines[0];
      PlainHasNoEol(line);
      LfLineThen(line, Terminate(lines[1..]));
      LinesOfTerminated(lines[1..]);
      assert lines == [line] + lines[1..];
    }
  }

  lemma EmptyLines()
    ensures Lines([]) == Cut([], [])
  {
  }

  lemma LfLineThen(line: bytes, more: bytes)
    requires EolAt(line) == |line|
    ensures Lines(line + [LF] + more) == Cut([line] + Lines(more).lines, Lines(more).rest)
  {
    hide EolAt;
    var s := line + [LF] + more;
    EolAtConcat(line, [LF] + more);
    LfIsEol(more);
    assert s == line + ([LF] + more);
    assert s[..|line|] == line && s[AfterEol(s, |line|)..] == more;
  }

  lemma LfIsEol(more: bytes)
    ensures EolAt([LF] + more) == 0
  {
  }

  lemma PlainHasNoEol(line: bytes)
    requires PlainLine(line)
    ensures EolAt(line) == |line| && CR !in line
  {
    forall i | 0 <= i < |line|
      ensures !IsEol(line[i])
    {
      assert line[i] in line;
    }
  }

  lemma {:induction false} TextsOfPlain(first: bool, lines: seq<bytes>)
    requires PlainLines(lines)
    ensures Texts(first, lines) == lines
    decreases |lines|
  {
    if lines != [] {
      Utf8.LossyKeepsValid(lines[0]);
      TextsOfPlain(false, lines[1..]);
    }
  }

  lemma {:induction false} NoCrCleanCuts(chunks: seq<bytes>)
    requires CR !in Flatten(chunks)
    ensures CleanCuts(false, chunks)
  {
    if chunks != [] {
      var c := chunks[0];
      assert forall b :: b in c ==> b in Flatten(chunks);
      assert forall b :: b in Flatten(chunks[1..]) ==> b in Flatten(chunks);
      assert !EndsCr(c) by {
        if c != [] { assert c[|c| - 1] in c; }
      }
      NoCrCleanCuts(chunks[1..]);
    }
  }

  /** Whatever events a server writes, and however the transport cuts them, the client reads
      exactly the expected events, in order, each with the right last event identifier. */
  lemma StreamRoundTrip(sent: seq<Sent>, body: seq<Frame>)
    requires AllWellSent(sent)
    requires Flatten(Chunks(body)) == StreamText(sent) && FaultOf(body) == None
    ensures EventsOf(body) == Expected(EMPTY, [], sent)
  {
    hide WellSent, PlainLine, StreamLines, Expected, Terminate;
    var lines := StreamLines(sent);
    StreamFeeds(EMPTY, [], sent);
    StreamTextIsLines(sent);
    LinesOfTerminated(lines);
    TextsOfPlain(true, lines);
    NoCrCleanCuts(Chunks(body));
    GluedClean(false, Chunks(body));
    EventsAreOfGluedText(body);
  }

  // ---- events that merge -----------------------------------------------------------------------

  /** No event that was left open is followed by one that sets a field. */
  predicate Apart(sent: seq<Sent>)
    decreases |sent|
  {
    |sent| <= 1 || ((sent[0].closed || Meaning(EMPTY, sent[1].fields) == EMPTY) && Apart(sent[1..]))
  }

  /** The same events, each closed by its blank line. */
  function AllClosed(sent: seq<Sent>): (r: seq<Sent>)
    ensures |r| == |sent|
  {
    if sent == [] then [] else [sent[0].(closed := true)] + AllClosed(sent[1..])
  }

  /** Fields that mean nothing change nothing, and no field is ever unset. */
  lemma {:induction false} MeansNothing(acc: Event, fields: seq<Field>)
    ensures Meaning(EMPTY, fields) == EMPTY ==> Meaning(acc, fields) == acc
    ensures acc != EMPTY ==> Meaning(acc, fields) != EMPTY
    decreases |fields|
  {
    if fields != [] {
      MeansNothing(Apply(acc, fields[0]), fields[1..]);
      MeansNothing(Apply(EMPTY, fields[0]), fields[1..]);
    }
  }

  lemma {:induction false} OpenSetsData(acc: Event, fields: seq<Field>)
    requires fields != [] && fields[|fields| - 1].Data?
    ensures Meaning(acc, fields) != EMPTY
    decreases |fields|
  {
    if |fields| == 1 {
      assert fields[1..] == [];
    } else {
      OpenSetsData(Apply(acc, fields[0]), fields[1..]);
    }
  }

  lemma {:induction false} SameNumber(a: Event, i: bytes, b: Event, j: bytes, sent: seq<Sent>)
    requires a == EMPTY <==> b == EMPTY
    ensures |Expected(a, i, sent)| == |Expected(b, j, sent)|
    decreases |sent|
  {
    hide Meaning, Dispatch;
    if sent != [] {
      var fields := sent[0].fields;
      MeansNothing(a, fields);
      MeansNothing(b, fields);
      var x, y := Meaning(a, fields), Meaning(b, fields);
      if !sent[0].closed || x == EMPTY {
        SameNumber(x, i, y, j, sent[1..]);
      } else {
        SameNumber(EMPTY, Dispatch(x, i).lastId, EMPTY, Dispatch(y, j).lastId, sent[1..]);
      }
    }
  }

  /** Without the blank lines the events come out alike if they are apart, and fewer otherwise. */
  lemma {:induction false} OpenEventsMerge(lastId: bytes, sent: seq<Sent>)
    requires AllWellSent(sent)
    ensures Apart(sent) ==> Expected(EMPTY, lastId, sent) == Expected(EMPTY, lastId, AllClosed(sent))
    ensures !Apart(sent) ==> |Expected(EMPTY, lastId, sent)| < |Expected(EMPTY, lastId, AllClosed(sent))|
    decreases |sent|
  {
    hide Meaning, Dispatch, Accepted;
    if sent != [] {
      var rest := sent[1..];
      assert WellSent(sent[0]) && AllClosed(sent)[1..] == AllClosed(rest);
      var e := Meaning(EMPTY, sent[0].fields);
      var d := Dispatch(e, lastId);
      if sent[0].closed {
        OpenEventsMerge(if e == EMPTY then lastId else d.lastId, rest);
      } else {
        OpenSetsData(EMPTY, sent[0].fields);
        if rest != [] {
          MeansNothing(e, rest[0].fields);
          if Meaning(EMPTY, rest[0].fields) == EMPTY {
            IdleEventIsClosed(rest[0]);
            OpenEventsMerge(d.lastId, rest[1..]);
            assert AllClosed(rest)[1..] == AllClosed(rest[1..]);
            assert Expected(EMPTY, lastId, sent) == [d] + Expected(EMPTY, d.lastId, rest[1..]);
            assert Expected(EMPTY, lastId, AllClosed(sent)) == [d] + Expected(EMPTY, d.lastId, AllClosed(rest));
            assert Expected(EMPTY, d.lastId, AllClosed(rest)) == Expected(EMPTY, d.lastId, AllClosed(rest[1..]));
            assert Apart(sent) == Apart(rest) == Apart(rest[1..]);
          } else {
            JoinedCount(e, lastId, d.lastId, rest);
            OpenEventsMerge(d.lastId, rest);
          }
        }
      }
    }
  }

  lemma IdleEventIsClosed(s: Sent)
    requires WellSent(s) && Meaning(EMPTY, s.fields) == EMPTY
    ensures s.closed
  {
    if !s.closed {
      OpenSetsData(EMPTY, s.fields);
    }
  }

  lemma JoinedCount(e: Event, i: bytes, j: bytes, sent: seq<Sent>)
    requires e != EMPTY && sent != [] && Meaning(EMPTY, sent[0].fields) != EMPTY
    ensures |Expected(e, i, sent)| == |Expected(EMPTY, j, sent)|
  {
    hide Meaning, Dispatch;
    var fields := sent[0].fields;
    MeansNothing(e, fields);
    var x, y := Meaning(e, fields), Meaning(EMPTY, fields);
    if sent[0].closed {
      SameNumber(EMPTY, Dispatch(x, i).lastId, EMPTY, Dispatch(y, j).lastId, sent[1..]);
    } else {
      SameNumber(x, i, y, j, sent[1..]);
    }
  }

  /** A client sees the events as they were built exactly when no event left open by `json` is
      followed by one that sets a field. */
  lemma SeparateExactlyWhenApart(sent: seq<Sent>, body: seq<Frame>)
    requires AllWellSent(sent)
    requires Flatten(Chunks(body)) == StreamText(sent) && FaultOf(body) == None
    ensures EventsOf(body) == Expected(EMPTY, [], AllClosed(sent)) <==> Apart(sent)
  {
    hide EventsOf, Expected, WellSent;
    StreamRoundTrip(sent, body);
    OpenEventsMerge([], sent);
  }

  /** Two JSON events in a row are read as one. */
  lemma JsonPairMerges(a: bytes, b: bytes)
    ensures Expected(EMPTY, [], [Sent([Data(a)], false), Sent([Data(b)], false)])
         == [Dispatched(Event(Some(a + [LF] + b), None, None, None), [])]
  {
    var sent := [Sent([Data(a)], false), Sent([Data(b)], false)];
    assert sent[1..] == [Sent([Data(b)], false)] && sent[1..][1..] == [];
    var one := Apply(EMPTY, Data(a));
    var two := Apply(one, Data(b));
    assert Meaning(EMPTY, [Data(a)]) == one by { assert [Data(a)][1..] == []; }
    assert Meaning(one, [Data(b)]) == two by { assert [Data(b)][1..] == []; }
    assert Expected(one, [], sent[1..]) == Expected(two, [], []);
  }
}
