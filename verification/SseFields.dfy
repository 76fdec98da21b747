/** What a client sees of a stream, field by field, in terms of the fields the server set. */
module SseFields {
  import opened Bytes
  import opened SseLines
  import opened Sse
  import opened SseCuts
  import opened SseStream
  import Utf8

  // ---- what fields stand for -------------------------------------------------------------------

  /** The latest identifier; one with a NUL does not count. */
  function LatestId(fields: seq<Field>): Option<bytes> {
    if fields == [] then None
    else
      var last := fields[|fields| - 1];
      if last.Id? && NUL !in last.value then Some(last.value) else LatestId(fields[..|fields| - 1])
  }

  function LatestName(fields: seq<Field>): Option<bytes> {
    if fields == [] then None
    else
      var last := fields[|fields| - 1];
      if last.Name? then Some(last.value) else LatestName(fields[..|fields| - 1])
  }

  /** The latest delay that fits 64 bits. */
  function LatestRetry(fields: seq<Field>): Option<nat> {
    if fields == [] then None
    else
      var last := fields[|fields| - 1];
      if last.Retry? && last.ms <= U64_MAX then Some(last.ms) else LatestRetry(fields[..|fields| - 1])
  }

  /** All data, joined by LF. */
  function JoinedData(fields: seq<Field>): Option<bytes> {
    if fields == [] then None
    else
      var last, before := fields[|fields| - 1], JoinedData(fields[..|fields| - 1]);
      if !last.Data? then before
      else if before.None? then Some(last.value)
      else Some(before.value + [10] + last.value)
  }

  /** A field that a client notices. */
  predicate Sets(f: Field) {
    match f
    case Data(_) => true
    case Name(_) => true
    case Id(v) => NUL !in v
    case Retry(ms) => ms <= U64_MAX
    case Comment(_) => false
  }

  predicate SetsAny(fields: seq<Field>) {
    exists i :: 0 <= i < |fields| && Sets(fields[i])
  }

  /** The fields of each event a client should see: those of the events sent up to and including
      one that is closed, unless they set nothing; and at the end those still open. */
  function Blocks(open: seq<Field>, sent: seq<Sent>): (r: seq<seq<Field>>)
    decreases |sent|
  {
    if sent == [] then if SetsAny(open) then [open] else []
    else
      var fields := open + sent[0].fields;
      if !sent[0].closed then Blocks(fields, sent[1..])
      else (if SetsAny(fields) then [fields] else []) + Blocks([], sent[1..])
  }

  function AllOf(blocks: seq<seq<Field>>): (r: seq<Field>) {
    if blocks == [] then [] else blocks[0] + AllOf(blocks[1..])
  }

  function Or(o: Option<bytes>, default: bytes): bytes {
    if o.Some? then o.value else default
  }

  // ---- a single event --------------------------------------------------------------------------

  lemma {:induction false} MeaningConcat(acc: Event, a: seq<Field>, b: seq<Field>)
    ensures Meaning(Meaning(acc, a), b) == Meaning(acc, a + b)
    decreases |a|
  {
    if a == [] {
      assert a + b == b;
    } else {
      assert (a + b)[1..] == a[1..] + b;
      MeaningConcat(Apply(acc, a[0]), a[1..], b);
    }
  }

  lemma {:induction false} MeaningIs(fields: seq<Field>)
    ensures Meaning(EMPTY, fields)
         == Event(JoinedData(fields), LatestName(fields), LatestId(fields), LatestRetry(fields))
    ensures Meaning(EMPTY, fields) == EMPTY <==> !SetsAny(fields)
    decreases |fields|
  {
    if fields != [] {
      var init, last := fields[..|fields| - 1], fields[|fields| - 1];
      MeaningIs(init);
      assert fields == init + [last];
      MeaningConcat(EMPTY, init, [last]);
      assert [last][1..] == [];
      assert Meaning(Meaning(EMPTY, init), [last]) == Apply(Meaning(EMPTY, init), last);
      SetsAnySnoc(init, last);
    }
  }

  lemma SetsAnySnoc(init: seq<Field>, last: Field)
    ensures SetsAny(init + [last]) <==> SetsAny(init) || Sets(last)
  {
    var fields := init + [last];
    if SetsAny(init) {
      var i :| 0 <= i < |init| && Sets(init[i]);
      assert Sets(fields[i]);
    }
    if Sets(last) {
      assert Sets(fields[|init|]);
    }
  }

  lemma {:induction false} LatestIdConcat(a: seq<Field>, b: seq<Field>)
    ensures LatestId(a + b) == if LatestId(b).Some? then LatestId(b) else LatestId(a)
    decreases |b|
  {
    if b == [] {
      assert a + b == a;
    } else {
      assert (a + b)[..|a + b| - 1] == a + b[..|b| - 1];
      LatestIdConcat(a, b[..|b| - 1]);
    }
  }

  // ---- the whole stream ------------------------------------------------------------------------

  /** What one event looks like to the client after `earlier` blocks and its own. */
  predicate SeenAs(d: Dispatched, lastId: bytes, blocks: seq<seq<Field>>, n: nat)
    requires n < |blocks|
  {
    && d.event.data == JoinedData(blocks[n])
    && d.event.event == LatestName(blocks[n])
    && d.event.id == (if LatestId(blocks[n]) == Some([]) then None else LatestId(blocks[n]))
    && d.event.retry == LatestRetry(blocks[n])
    && d.lastId == Or(LatestId(AllOf(blocks[..n + 1])), lastId)
  }

  lemma {:induction false} ExpectedIs(open: seq<Field>, lastId: bytes, sent: seq<Sent>)
    ensures var events, blocks := Expected(Meaning(EMPTY, open), lastId, sent), Blocks(open, sent);
            |events| == |blocks| && forall n :: 0 <= n < |events| ==> SeenAs(events[n], lastId, blocks, n)
    decreases |sent|
  {
    hide Meaning, SetsAny, JoinedData, LatestName, LatestId, LatestRetry, AllOf;
    if sent == [] {
      MeaningIs(open);
      if SetsAny(open) {
        FirstSeen(open, [], lastId);
        assert [open] + [] == [open];
      }
    } else {
      var fields := open + sent[0].fields;
      MeaningConcat(EMPTY, open, sent[0].fields);
      if !sent[0].closed {
        ExpectedIs(fields, lastId, sent[1..]);
      } else {
        MeaningIs(fields);
        NothingMeant();
        if !SetsAny(fields) {
          ExpectedIs([], lastId, sent[1..]);
          assert [] + Blocks([], sent[1..]) == Blocks([], sent[1..]);
        } else {
          var d := Dispatch(Meaning(EMPTY, fields), lastId);
          var events, blocks := Expected(EMPTY, d.lastId, sent[1..]), Blocks([], sent[1..]);
          ExpectedIs([], d.lastId, sent[1..]);
          FirstSeen(fields, blocks, lastId);
          forall n | 0 < n < |events| + 1
            ensures SeenAs(([d] + events)[n], lastId, [fields] + blocks, n)
          {
            LaterSeen(events[n - 1], fields, blocks, lastId, d.lastId, n - 1);
          }
        }
      }
    }
  }

  lemma NothingMeant()
    ensures Meaning(EMPTY, []) == EMPTY
  {
  }

  lemma FirstSeen(fields: seq<Field>, blocks: seq<seq<Field>>, lastId: bytes)
    ensures var d := Dispatch(Meaning(EMPTY, fields), lastId);
            && SeenAs(d, lastId, [fields] + blocks, 0)
            && d.lastId == Or(LatestId(fields), lastId)
  {
    hide Meaning, SetsAny, JoinedData, LatestName, LatestId, LatestRetry;
    MeaningIs(fields);
    var all := [fields] + blocks;
    assert all[..1][1..] == [];
    assert AllOf(all[..1]) == fields + AllOf(all[..1][1..]);
    assert fields + [] == fields;
  }

  lemma AllOfCons(fields: seq<Field>, blocks: seq<seq<Field>>)
    ensures AllOf([fields] + blocks) == fields + AllOf(blocks)
  {
    assert ([fields] + blocks)[1..] == blocks;
  }

  lemma LaterSeen(d: Dispatched, fields: seq<Field>, blocks: seq<seq<Field>>, lastId: bytes, between: bytes, n: nat)
    requires n < |blocks| && SeenAs(d, between, blocks, n) && between == Or(LatestId(fields), lastId)
    ensures SeenAs(d, lastId, [fields] + blocks, n + 1)
  {
    hide JoinedData, LatestName, LatestId, LatestRetry, AllOf;
    var all := [fields] + blocks;
    AllOfCons(fields, blocks[..n + 1]);
    assert all[..n + 2] == [fields] + blocks[..n + 1];
    LatestIdConcat(fields, AllOf(blocks[..n + 1]));
  }

  /** However the transport cuts a stream, the client sees one event for each block. Its data is the
      data of the block joined by LF, its name, delay and identifier are the latest of the block (an
      empty identifier counting as none), and the last event identifier after it is the latest one
      of all fields so far, empty if there is none. */
  lemma FieldsArrive(sent: seq<Sent>, body: seq<Frame>)
    requires AllWellSent(sent)
    requires Flatten(Chunks(body)) == StreamText(sent) && FaultOf(body) == None
    ensures var events, blocks := EventsOf(body), Blocks([], sent);
            && |events| == |blocks|
            && forall n :: 0 <= n < |events| ==>
                 && events[n].event.data == JoinedData(blocks[n])
                 && events[n].event.event == LatestName(blocks[n])
                 && events[n].event.id == (if LatestId(blocks[n]) == Some([]) then None else LatestId(blocks[n]))
                 && events[n].event.retry == LatestRetry(blocks[n])
                 && events[n].lastId == Or(LatestId(AllOf(blocks[..n + 1])), [])
  {
    hide EventsOf, Expected, Blocks, Meaning, JoinedData, LatestName, LatestId, LatestRetry, AllOf, WellSent;
    StreamRoundTrip(sent, body);
    ExpectedIs([], [], sent);
    NothingMeant();
    var events, blocks := EventsOf(body), Blocks([], sent);
    assert forall n :: 0 <= n < |events| ==> SeenAs(events[n], [], blocks, n);
  }

  // ---- lines the writer does not produce -------------------------------------------------------

  lemma FieldNames()
    ensures DATA == B("data") && EVENT == B("event") && ID == B("id") && RETRY == B("retry")
  {
  }

  lemma {:induction false} ColonAfter(key: bytes, rest: bytes)
    requires 58 !in key
    ensures ColonAt(key) == |key| && ColonAt(key + [58] + rest) == |key|
  {
    var line := key + [58] + rest;
    if key != [] {
      assert key[0] in key;
      assert line[1..] == key[1..] + [58] + rest;
      ColonAfter(key[1..], rest);
    }
  }

  /** A line with a colon: its name and its value. */
  lemma LineParts(key: bytes, rest: bytes)
    requires 58 !in key
    ensures var line := key + [58] + rest;
            && line[..ColonAt(line)] == key
            && ValueOf(line) == if rest != [] && rest[0] == 32 then rest[1..] else rest
  {
    hide ColonAt;
    var line := key + [58] + rest;
    ColonAfter(key, rest);
    assert line[..|key|] == key && line[|key| + 1..] == rest;
    if rest != [] {
      assert line[|key| + 1] == rest[0] && line[|key| + 2..] == rest[1..];
    }
  }

  lemma CollectByParts(acc: Event, a: bytes, b: bytes)
    requires a[..ColonAt(a)] == b[..ColonAt(b)] && ValueOf(a) == ValueOf(b)
    ensures Collect(acc, a) == Collect(acc, b)
  {
    hide ColonAt, ValueOf;
  }

  /** A value may follow the colon directly, behind one space, or be missing with or without the
      colon; of several spaces only the first is dropped. */
  lemma ValueSpellings(acc: Event, key: bytes, value: bytes)
    requires 58 !in key
    ensures value == [] || value[0] != 32 ==> Collect(acc, key + [58] + value) == Collect(acc, key + [58] + ([32] + value))
    ensures Collect(acc, key) == Collect(acc, key + [58] + [])
    ensures ValueOf(key + [58] + ([32] + value)) == value
  {
    hide ColonAt, Collect;
    LineParts(key, value);
    LineParts(key, [32] + value);
    LineParts(key, []);
    assert ([32] + value)[1..] == value;
    ColonAfter(key, []);
    assert key[..|key|] == key;
    CollectByParts(acc, key, key + [58] + []);
    if value == [] || value[0] != 32 {
      CollectByParts(acc, key + [58] + value, key + [58] + ([32] + value));
    }
  }

  lemma LinesFirst(s: bytes)
    ensures EolAt(s) == |s| ==> Lines(s) == Cut([], s)
    ensures EolAt(s) < |s| ==>
              var tail := Lines(s[AfterEol(s, EolAt(s))..]);
              Lines(s) == Cut([s[..EolAt(s)]] + tail.lines, tail.rest)
  {
  }

  /** The lines of a text behind a prefix without line ends: only the first line, or the rest if
      there is none, is longer by the prefix. */
  lemma LinesBehind(p: bytes, text: bytes)
    requires EolAt(p) == |p|
    ensures var cut := Lines(text);
            Lines(p + text) == if cut.lines == [] then Cut([], p + text)
                               else Cut([p + cut.lines[0]] + cut.lines[1..], cut.rest)
  {
    hide EolAt, Lines, AfterEol;
    EolAtConcat(p, text);
    LinesFirst(p + text);
    LinesFirst(text);
    if EolAt(text) < |text| {
      CutBehind(p, text, EolAt(text));
    }
  }

  lemma CutBehind(p: bytes, text: bytes, n: nat)
    requires n < |text|
    ensures var s, m := p + text, AfterEol(text, n);
            && AfterEol(s, |p| + n) == |p| + m
            && s[|p| + m..] == text[m..]
            && s[..|p| + n] == p + text[..n]
  {
  }

  /** At the end of a body the line end may be missing. */
  lemma FinalNewlineOptional(text: bytes)
    requires Lines(text).rest != []
    ensures EventsOfText(text, true) == EventsOfText(text + [10], true)
  {
    hide Events, Texts;
    var cut := Lines(text);
    assert !EndsCr(text) by {
      if EndsCr(text) { LinesEndCrLf(text); }
    }
    LinesConcat(text, [LF]);
    RestIsPlain(text);
    Terminated(cut.rest);
  }

  lemma {:induction false} RestIsPlain(text: bytes)
    ensures EolAt(Lines(text).rest) == |Lines(text).rest|
    decreases |text|
  {
    if EolAt(text) < |text| {
      RestIsPlain(text[AfterEol(text, EolAt(text))..]);
    }
  }

  /** A byte order mark at the start of a stream is dropped, once: the events are those of the text
      behind it. */
  lemma MarkIsDropped(text: bytes, ended: bool)
    requires !(BOM <= text)
    ensures EventsOfText([0xEF, 0xBB, 0xBF] + text, ended) == EventsOfText(text, ended)
  {
    hide Lines, Events, Utf8.Lossy;
    var mark: bytes := [0xEF, 0xBB, 0xBF];
    MarkHasNoEol();
    LinesBehind(mark, text);
    LinesAlone(text);
    var cut := Lines(text);
    if cut.lines != [] {
      FirstLineStarts(text);
      var marked := [mark + cut.lines[0]] + cut.lines[1..];
      assert cut.lines == [cut.lines[0]] + cut.lines[1..];
      var tail := Closed(Cut(cut.lines[1..], cut.rest), ended);
      ClosedFirst(cut.lines[0], Cut(cut.lines[1..], cut.rest), ended);
      ClosedFirst(mark + cut.lines[0], Cut(cut.lines[1..], cut.rest), ended);
      TextsCons(true, cut.lines[0], tail);
      TextsCons(true, mark + cut.lines[0], tail);
      MarkedText(cut.lines[0]);
    } else if ended {
      MarkedText(text);
      TextsCons(true, text, []);
      TextsCons(true, mark + text, []);
      assert [text] + [] == [text] && [mark + text] + [] == [mark + text];
      assert [] + [mark + text] == [mark + text] && [] + [text] == [text];
      if text == [] {
        BlankAtStart(ended);
        EmptyText();
      }
    }
  }

  lemma MarkHasNoEol()
    ensures EolAt([0xEF, 0xBB, 0xBF]) == 3
  {
    PlainText([0xEF, 0xBB, 0xBF], 3);
  }

  lemma LinesAlone(text: bytes)
    ensures Lines(text).lines == [] ==> Lines(text).rest == text
  {
  }

  lemma FirstLineStarts(text: bytes)
    requires Lines(text).lines != []
    ensures Lines(text).lines[0] <= text
  {
  }

  lemma ClosedFirst(line: bytes, cut: Cut, ended: bool)
    ensures Closed(Cut([line] + cut.lines, cut.rest), ended) == [line] + Closed(cut, ended)
  {
    ConcatAssoc([line], cut.lines, [cut.rest]);
  }

  lemma MarkedText(line: bytes)
    requires !(BOM <= line)
    ensures Text(true, [0xEF, 0xBB, 0xBF] + line) == Text(true, line)
  {
    assert ([0xEF, 0xBB, 0xBF] + line)[3..] == line;
  }

  lemma BlankAtStart(ended: bool)
    ensures Events(EMPTY, [], [[]], ended) == Events(EMPTY, [], [], ended)
  {
    EventsStep(EMPTY, [], [], [], ended);
    var blank: seq<bytes> := [[]];
    assert blank == [[]] + [];
  }
}
