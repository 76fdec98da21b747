/** The Server-Sent Events reader: lines to events, over a body cut into arbitrary frames. */
module Sse {
  import opened Bytes
  import opened SseLines
  import Decimal
  import Utf8

  const COLON: byte := 58
  const SPACE: byte := 32
  const NUL: byte := 0

  // Field names, in ASCII: "data", "event", "id", "retry".
  const DATA: bytes := [100, 97, 116, 97]
  const EVENT: bytes := [101, 118, 101, 110, 116]
  const ID: bytes := [105, 100]
  const RETRY: bytes := [114, 101, 116, 114, 121]

  const BOM: bytes := [0xEF, 0xBB, 0xBF]

  /** An event; a field that was never set is `None`. */
  datatype Event = Event(data: Option<bytes>, event: Option<bytes>, id: Option<bytes>, retry: Option<nat>)

  const EMPTY := Event(None, None, None, None)

  // ---- what a sequence of lines means --------------------------------------------------------

  function ColonAt(line: bytes): (n: nat)
    ensures n <= |line|
    ensures forall i :: 0 <= i < n ==> line[i] != COLON
    ensures n < |line| ==> line[n] == COLON
  {
    if line == [] || line[0] == COLON then 0 else 1 + ColonAt(line[1..])
  }

  /** The value of a field line: what follows the colon, without one leading space. */
  function ValueOf(line: bytes): bytes {
    var n := ColonAt(line);
    if n == |line| then []
    else if n + 1 < |line| && line[n + 1] == SPACE then line[n + 2..]
    else line[n + 1..]
  }

  /** The event being collected after one non-empty line. Comments, unknown fields, identifiers
      with a NUL and retry values that are no u64 change nothing. */
  function Collect(acc: Event, line: bytes): Event {
    var name, value := line[..ColonAt(line)], ValueOf(line);
    if name == DATA then
      acc.(data := Some(if acc.data.Some? then acc.data.value + [LF] + value else value))
    else if name == EVENT then acc.(event := Some(value))
    else if name == ID then if NUL in value then acc else acc.(id := Some(value))
    else if name == RETRY then
      if Decimal.ParseU64(value).Some? then acc.(retry := Decimal.ParseU64(value)) else acc
    else acc
  }

  /** An event together with the last event identifier after it. */
  datatype Dispatched = Dispatched(event: Event, lastId: bytes)

  /** Dispatching an event: an empty identifier resets the last identifier but is not reported. */
  function Dispatch(acc: Event, lastId: bytes): Dispatched {
    Dispatched(if acc.id == Some([]) then acc.(id := None) else acc,
               if acc.id.Some? then acc.id.value else lastId)
  }

  datatype Fed = Fed(events: seq<Dispatched>, acc: Event, lastId: bytes)

  /** The events of a sequence of lines, and the event left unfinished. */
  function Feed(acc: Event, lastId: bytes, lines: seq<bytes>): (r: Fed)
    decreases |lines|
  {
    if lines == [] then Fed([], acc, lastId)
    else if lines[0] != [] then Feed(Collect(acc, lines[0]), lastId, lines[1..])
    else if acc == EMPTY then Feed(acc, lastId, lines[1..])
    else
      var d := Dispatch(acc, lastId);
      var r := Feed(EMPTY, d.lastId, lines[1..]);
      Fed([d] + r.events, r.acc, r.lastId)
  }

  /** At the end of the body the unfinished event is dispatched too. */
  function Events(acc: Event, lastId: bytes, lines: seq<bytes>, ended: bool): seq<Dispatched> {
    var r := Feed(acc, lastId, lines);
    r.events + if ended && r.acc != EMPTY then [Dispatch(r.acc, r.lastId)] else []
  }

  /** The text of a raw line; a byte order mark is dropped from the first line of the stream. */
  function Text(first: bool, line: bytes): bytes {
    Utf8.Lossy(if first && BOM <= line then line[3..] else line)
  }

  function Texts(first: bool, lines: seq<bytes>): (r: seq<bytes>)
    ensures |r| == |lines|
    decreases |lines|
  {
    if lines == [] then [] else [Text(first, lines[0])] + Texts(false, lines[1..])
  }

  // ---- bodies --------------------------------------------------------------------------------

  datatype Frame = Chunk(data: bytes) | Trailers | Fault(error: bytes)

  /** The data before the first transport error; trailers are skipped. */
  function Chunks(body: seq<Frame>): (r: seq<bytes>) {
    if body == [] || body[0].Fault? then []
    else (if body[0].Chunk? then [body[0].data] else []) + Chunks(body[1..])
  }

  /** The transport error that ends the body, if any. */
  function FaultOf(body: seq<Frame>): Option<bytes> {
    if body == [] then None
    else if body[0].Fault? then Some(body[0].error)
    else FaultOf(body[1..])
  }

  /** The body without its first transport error. */
  function WithoutFault(body: seq<Frame>): (r: seq<Frame>) {
    if body == [] then []
    else if body[0].Fault? then body[1..]
    else [body[0]] + WithoutFault(body[1..])
  }

  /** At the end of the body an unterminated line counts as a line. */
  function Closed(cut: Cut, ended: bool): seq<bytes> {
    if ended && cut.rest != [] then cut.lines + [cut.rest] else cut.lines
  }

  /** The lines still to be read. */
  function LinesToCome(buffer: bytes, body: seq<Frame>): (r: seq<bytes>) {
    var cut := Lines(buffer);
    Closed(Then(cut, Scan(cut.rest, Chunks(body))), FaultOf(body).None?)
  }

  // ---- the accumulator with its bitset -------------------------------------------------------

  const BIT_DATA: bv8 := 1
  const BIT_EVENT: bv8 := 2
  const BIT_ID: bv8 := 4
  const BIT_RETRY: bv8 := 8

  datatype EventBuffer = EventBuffer(bitset: bv8, data: bytes, event: Option<bytes>, id: Option<bytes>, retry: Option<nat>)
  {
    /** The bits say exactly which fields are set. */
    predicate Valid() {
      && bitset < 16
      && (bitset & BIT_DATA == 0 ==> data == [])
      && (bitset & BIT_EVENT != 0 <==> event.Some?)
      && (bitset & BIT_ID != 0 <==> id.Some?)
      && (bitset & BIT_RETRY != 0 <==> retry.Some?)
    }

    function View(): Event {
      Event(if bitset & BIT_DATA != 0 then Some(data) else None, event, id, retry)
    }
  }

  const EMPTY_BUFFER := EventBuffer(0, [], None, None, None)

  /** A field has been seen exactly when the bitset is not zero. */
  lemma BitsetMeansField(p: EventBuffer)
    requires p.Valid()
    ensures p.bitset != 0 <==> p.View() != EMPTY
  {
  }

  // Setting one bit leaves the others as they were.

  lemma SetData(b: bv8)
    requires b < 16
    ensures b | BIT_DATA < 16 && (b | BIT_DATA) & BIT_DATA != 0
    ensures (b | BIT_DATA) & BIT_EVENT == b & BIT_EVENT && (b | BIT_DATA) & BIT_ID == b & BIT_ID
    ensures (b | BIT_DATA) & BIT_RETRY == b & BIT_RETRY
  {
  }

  lemma SetEvent(b: bv8)
    requires b < 16
    ensures b | BIT_EVENT < 16 && (b | BIT_EVENT) & BIT_EVENT != 0
    ensures (b | BIT_EVENT) & BIT_DATA == b & BIT_DATA && (b | BIT_EVENT) & BIT_ID == b & BIT_ID
    ensures (b | BIT_EVENT) & BIT_RETRY == b & BIT_RETRY
  {
  }

  lemma SetId(b: bv8)
    requires b < 16
    ensures b | BIT_ID < 16 && (b | BIT_ID) & BIT_ID != 0
    ensures (b | BIT_ID) & BIT_DATA == b & BIT_DATA && (b | BIT_ID) & BIT_EVENT == b & BIT_EVENT
    ensures (b | BIT_ID) & BIT_RETRY == b & BIT_RETRY
  {
  }

  lemma SetRetry(b: bv8)
    requires b < 16
    ensures b | BIT_RETRY < 16 && (b | BIT_RETRY) & BIT_RETRY != 0
    ensures (b | BIT_RETRY) & BIT_DATA == b & BIT_DATA && (b | BIT_RETRY) & BIT_EVENT == b & BIT_EVENT
    ensures (b | BIT_RETRY) & BIT_ID == b & BIT_ID
  {
  }

  // ---- the reader ----------------------------------------------------------------------------

  class SseReader {
    var body: seq<Frame>
    var buffer: bytes
    var lastEventId: bytes
    var isFirstLine: bool
    var pending: EventBuffer

    constructor (body: seq<Frame>)
      ensures Valid() && this.body == body && buffer == [] && lastEventId == [] && isFirstLine
      ensures pending == EMPTY_BUFFER
    {
      this.body := body;
      buffer, lastEventId, isFirstLine, pending := [], [], true, EMPTY_BUFFER;
    }

    ghost predicate Valid()
      reads this
    {
      pending.Valid()
    }

    /** The events still to come if `body` is still to be read, with the last event identifier
        after each. */
    ghost function OutlookOn(body: seq<Frame>): seq<Dispatched>
      reads this
    {
      Events(pending.View(), lastEventId, Texts(isFirstLine, LinesToCome(buffer, body)), FaultOf(body).None?)
    }

    /** Every event still to come. */
    ghost function Outlook(): seq<Dispatched>
      reads this
    {
      OutlookOn(body)
    }

    /** `next_line`. */
    method NextLine() returns (r: Option<bytes>)
      modifies this`buffer, this`isFirstLine
      ensures r.None? <==> EolAt(old(buffer)) == |old(buffer)|
      ensures r.None? ==> buffer == old(buffer) && isFirstLine == old(isFirstLine)
      ensures r.Some? ==>
                var n := EolAt(old(buffer));
                && r.value == Text(old(isFirstLine), old(buffer)[..n]) && !isFirstLine
                && buffer == old(buffer)[AfterEol(old(buffer), n)..]
    {
      var pos := 0;
      while pos < |buffer| && !IsEol(buffer[pos])
        invariant 0 <= pos <= |buffer|
        invariant pos + EolAt(buffer[pos..]) == EolAt(buffer)
      {
        assert buffer[pos..][1..] == buffer[pos + 1..];
        pos := pos + 1;
      }
      if pos == |buffer| {
        return None;
      }
      var terminator := buffer[pos];
      var line := buffer[..pos];
      var rest := buffer[pos + 1..];
      if terminator == CR && rest != [] && rest[0] == LF {
        rest := rest[1..];
      }
      if isFirstLine {
        isFirstLine := false;
        if BOM <= line {
          line := line[3..];
        }
      }
      buffer := rest;
      return Some(Utf8.Lossy(line));
    }

    /** `dispatch_pending`. */
    method DispatchPending() returns (e: Event)
      requires Valid()
      modifies this`pending, this`lastEventId
      ensures Valid() && pending == EMPTY_BUFFER
      ensures Dispatched(e, lastEventId) == Dispatch(old(pending).View(), old(lastEventId))
    {
      if pending.bitset & BIT_ID != 0 {
        lastEventId := if pending.id.Some? then pending.id.value else [];
      }
      e := Event(if pending.bitset & BIT_DATA != 0 then Some(pending.data) else None,
                 pending.event,
                 if pending.id == Some([]) then None else pending.id,
                 pending.retry);
      pending := EMPTY_BUFFER;
    }

    /** `process_line`. */
    method ProcessLine(line: bytes) returns (r: Option<Event>)
      requires Valid()
      modifies this`pending, this`lastEventId
      ensures Valid()
      ensures line == [] && old(pending).View() != EMPTY ==>
                && r.Some? && pending.View() == EMPTY
                && Dispatched(r.value, lastEventId) == Dispatch(old(pending).View(), old(lastEventId))
      ensures line == [] && old(pending).View() == EMPTY ==>
                r == None && pending.View() == EMPTY && lastEventId == old(lastEventId)
      ensures line != [] ==>
                r == None && pending.View() == Collect(old(pending).View(), line) && lastEventId == old(lastEventId)
    {
      if line == [] {
        BitsetMeansField(pending);
        if pending.bitset != 0 {
          var e := DispatchPending();
          return Some(e);
        }
        return None;
      }
      if line[0] == COLON {
        return None;
      }
      var colon := ColonAt(line);
      var field, value := line[..colon], ValueOf(line);
      if field == DATA {
        SetData(pending.bitset);
        var data := if pending.bitset & BIT_DATA != 0 then pending.data + [LF] else pending.data;
        assert [] + value == value;
        pending := pending.(data := data + value, bitset := pending.bitset | BIT_DATA);
      } else if field == EVENT {
        SetEvent(pending.bitset);
        pending := pending.(event := Some(value), bitset := pending.bitset | BIT_EVENT);
      } else if field == ID && NUL !in value {
        SetId(pending.bitset);
        pending := pending.(id := Some(value), bitset := pending.bitset | BIT_ID);
      } else if field == RETRY {
        var ms := Decimal.ParseU64(value);
        if ms.Some? {
          SetRetry(pending.bitset);
          pending := pending.(retry := ms, bitset := pending.bitset | BIT_RETRY);
        }
      }
      return None;
    }

    /** Drains the complete lines of the buffer up to the first event. */
    method DrainLines(ghost other: seq<Frame>) returns (r: Option<Event>)
      requires Valid()
      modifies this`buffer, this`isFirstLine, this`pending, this`lastEventId
      ensures Valid()
      ensures r.Some? ==> old(Outlook()) == [Dispatched(r.value, lastEventId)] + Outlook()
      ensures r.None? ==> Outlook() == old(Outlook()) && EolAt(buffer) == |buffer|
      ensures r.None? ==> OutlookOn(other) == old(OutlookOn(other))
      ensures r.None? ==> buffer == Lines(old(buffer)).rest
    {
      hide Events, Collect, LinesToCome, EolAt, Text, FaultOf;
      while true
        invariant Valid() && Outlook() == old(Outlook()) && OutlookOn(other) == old(OutlookOn(other))
        invariant Lines(buffer).rest == Lines(old(buffer)).rest
        decreases |buffer|
      {
        ghost var before, first, acc, id := buffer, isFirstLine, pending.View(), lastEventId;
        var line := NextLine();
        if line.None? {
          return None;
        }
        NextLineToCome(before, body, first);
        NextLineToCome(before, other, first);
        EventsStep(acc, id, line.value, Texts(false, LinesToCome(buffer, body)), FaultOf(body).None?);
        EventsStep(acc, id, line.value, Texts(false, LinesToCome(buffer, other)), FaultOf(other).None?);
        r := ProcessLine(line.value);
        if r.Some? {
          return;
        }
      }
    }

    /** `read`: returns the first event of the outlook, or the end or error that follows the last
        one. After an error reading goes on as if the error had not been in the body. Reading
        terminates on every finite body. */
    method Read() returns (r: Result<Option<Event>, bytes>)
      requires Valid()
      modifies this
      ensures old(Outlook()) != [] ==>
                && Valid() && r == Ok(Some(old(Outlook())[0].event))
                && lastEventId == old(Outlook())[0].lastId && Outlook() == old(Outlook())[1..]
                && FaultOf(body) == old(FaultOf(body))
      ensures old(Outlook()) == [] ==>
                && Valid()
                && (old(FaultOf(body)).None? ==> r == Ok(None) && Outlook() == [] && FaultOf(body) == None)
                && (old(FaultOf(body)).Some? ==>
                      r == Err(old(FaultOf(body)).value) && Outlook() == old(OutlookOn(WithoutFault(body))))
    {
      hide Events, Texts, LinesToCome, EolAt, Chunks;
      while true
        invariant Valid() && Outlook() == old(Outlook()) && FaultOf(body) == old(FaultOf(body))
        invariant FaultOf(body).Some? ==> OutlookOn(WithoutFault(body)) == old(OutlookOn(WithoutFault(body)))
        decreases |body|
      {
        ghost var other := WithoutFault(body);
        var event := DrainLines(other);
        if event.Some? {
          return Ok(event);
        }
        if body == [] {
          r := AtEnd();
          return;
        }
        PullFrame(buffer, body);
        if !body[0].Fault? {
          PullFrame(buffer, other);
        }
        var frame := body[0];
        body := body[1..];
        match frame {
          case Chunk(data) =>
            buffer := buffer + data;
          case Trailers =>
          case Fault(e) =>
            EventsFault(pending.View(), lastEventId, isFirstLine);
            return Err(e);
        }
      }
    }

    /** The branch of `read` for an exhausted body. */
    method AtEnd() returns (r: Result<Option<Event>, bytes>)
      requires Valid() && body == [] && EolAt(buffer) == |buffer|
      modifies this`buffer, this`isFirstLine, this`pending, this`lastEventId
      ensures Valid()
      ensures old(Outlook()) != [] ==>
                && r == Ok(Some(old(Outlook())[0].event))
                && lastEventId == old(Outlook())[0].lastId && Outlook() == old(Outlook())[1..]
      ensures old(Outlook()) == [] ==> r == Ok(None) && Outlook() == []
    {
      hide Events, Texts, Text, EolAt;
      if buffer != [] {
        Terminated(buffer);
        buffer := buffer + [LF];
        var event := DrainLines([]);
        if event.Some? {
          return Ok(event);
        }
      }
      assert LinesToCome(buffer, []) == [];
      EventsEnd(pending.View(), lastEventId);
      BitsetMeansField(pending);
      if pending.bitset != 0 {
        var e := DispatchPending();
        EventsEnd(EMPTY, lastEventId);
        return Ok(Some(e));
      }
      return Ok(None);
    }
  }

  // ---- steps of the reader -------------------------------------------------------------------

  /** Taking one line out of the buffer takes the first line to come. */
  lemma NextLineToCome(buffer: bytes, body: seq<Frame>, first: bool)
    requires EolAt(buffer) < |buffer|
    ensures var n := EolAt(buffer);
            var after := buffer[AfterEol(buffer, n)..];
            && Lines(buffer).rest == Lines(after).rest
            && Texts(first, LinesToCome(buffer, body))
               == [Text(first, buffer[..n])] + Texts(false, LinesToCome(after, body))
  {
    hide EolAt, AfterEol, Scan, Text, FaultOf;
    var n := EolAt(buffer);
    var tail := Lines(buffer[AfterEol(buffer, n)..]);
    var more := Scan(tail.rest, Chunks(body));
    ThenAssoc(Cut([buffer[..n]], []), tail, more);
    var all := Then(tail, more);
    assert LinesToCome(buffer, body) == Closed(Cut([buffer[..n]] + all.lines, all.rest), FaultOf(body).None?);
    ConcatAssoc([buffer[..n]], all.lines, [all.rest]);
    assert LinesToCome(buffer, body) == [buffer[..n]] + Closed(all, FaultOf(body).None?);
  }

  /** How one line changes the events to come. */
  lemma EventsStep(acc: Event, lastId: bytes, line: bytes, rest: seq<bytes>, ended: bool)
    ensures line != [] ==>
              Events(acc, lastId, [line] + rest, ended) == Events(Collect(acc, line), lastId, rest, ended)
    ensures line == [] && acc == EMPTY ==>
              Events(acc, lastId, [line] + rest, ended) == Events(acc, lastId, rest, ended)
    ensures line == [] && acc != EMPTY ==>
              var d := Dispatch(acc, lastId);
              Events(acc, lastId, [line] + rest, ended) == [d] + Events(EMPTY, d.lastId, rest, ended)
  {
    hide Collect, Dispatch;
    assert ([line] + rest)[1..] == rest;
  }

  lemma EventsEnd(acc: Event, lastId: bytes)
    ensures Events(acc, lastId, Texts(false, []), true) == Events(acc, lastId, Texts(true, []), true)
    ensures Events(acc, lastId, Texts(true, []), true)
         == if acc == EMPTY then [] else [Dispatch(acc, lastId)]
  {
    hide Dispatch;
  }

  /** A drained buffer holds no line of its own. */
  lemma DrainedLinesToCome(buffer: bytes, body: seq<Frame>)
    requires EolAt(buffer) == |buffer|
    ensures LinesToCome(buffer, body) == Closed(Scan(buffer, Chunks(body)), FaultOf(body).None?)
  {
    hide EolAt, Closed, Scan, Chunks, FaultOf;
    assert Lines(buffer) == Cut([], buffer);
    var scanned := Scan(buffer, Chunks(body));
    assert [] + scanned.lines == scanned.lines;
  }

  /** Taking a frame from the body does not change what is to come. */
  lemma PullFrame(buffer: bytes, body: seq<Frame>)
    requires body != [] && EolAt(buffer) == |buffer|
    ensures body[0].Chunk? ==> LinesToCome(buffer, body) == LinesToCome(buffer + body[0].data, body[1..])
    ensures body[0].Trailers? ==> LinesToCome(buffer, body) == LinesToCome(buffer, body[1..])
    ensures !body[0].Fault? ==> FaultOf(body) == FaultOf(body[1..])
    ensures body[0].Fault? ==> FaultOf(body) == Some(body[0].error) && LinesToCome(buffer, body) == []
  {
    hide EolAt, Closed, Lines;
    DrainedLinesToCome(buffer, body);
    match body[0]
    case Chunk(data) =>
      var chunks := Chunks(body);
      assert chunks[0] == data && chunks[1..] == Chunks(body[1..]);
    case Trailers =>
      assert Chunks(body) == Chunks(body[1..]);
      DrainedLinesToCome(buffer, body[1..]);
    case Fault(_) =>
      FaultCloses(buffer);
  }

  lemma FaultCloses(buffer: bytes)
    ensures Closed(Scan(buffer, []), false) == []
  {
  }

  lemma EventsFault(acc: Event, lastId: bytes, first: bool)
    ensures Events(acc, lastId, Texts(first, []), false) == []
  {
  }

  lemma {:induction false} EolAtConcat(a: bytes, b: bytes)
    requires EolAt(a) == |a|
    ensures EolAt(a + b) == |a| + EolAt(b)
  {
    if a == [] {
      assert a + b == b;
    } else {
      assert (a + b)[1..] == a[1..] + b;
      EolAtConcat(a[1..], b);
    }
  }

  /** The synthetic newline at the end of the body completes the last line and adds no other. */
  lemma Terminated(buffer: bytes)
    requires buffer != [] && EolAt(buffer) == |buffer|
    ensures LinesToCome(buffer, []) == [buffer] == LinesToCome(buffer + [LF], [])
    ensures Lines(buffer + [LF]) == Cut([buffer], [])
  {
    var s := buffer + [LF];
    EolAtConcat(buffer, [LF]);
    assert s[..|buffer|] == buffer && s[AfterEol(s, |buffer|)..] == [];
    assert Lines([]) == Cut([], []);
    assert Lines(s) == Cut([buffer] + [], []);
    assert Lines(buffer) == Cut([], buffer);
  }
}
