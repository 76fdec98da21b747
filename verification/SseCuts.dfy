/** Whole event streams: exactly when it matters where the transport cuts them. */
module SseCuts {
  import opened Bytes
  import opened SseLines
  import opened Sse
  import Utf8

  /** Reads a body to its end. */
  method ReadAll(body: seq<Frame>) returns (events: seq<Dispatched>, last: Result<Option<Event>, bytes>)
    ensures events == EventsOf(body)
    ensures last == if FaultOf(body).Some? then Err(FaultOf(body).value) else Ok(None)
  {
    hide Events, Texts, LinesToCome, FaultOf;
    var reader := new SseReader(body);
    events := [];
    while true
      invariant reader.Valid() && FaultOf(reader.body) == FaultOf(body)
      invariant events + reader.Outlook() == EventsOf(body)
      decreases |reader.Outlook()|
    {
      ghost var rest := reader.Outlook();
      last := reader.Read();
      if last.Err? || last.value.None? {
        return;
      }
      assert rest == [rest[0]] + rest[1..];
      events := events + [Dispatched(last.value.value, reader.lastEventId)];
    }
  }

  /** The events of a body, each with the last event identifier after it. */
  ghost function EventsOf(body: seq<Frame>): seq<Dispatched> {
    Events(EMPTY, [], Texts(true, LinesToCome([], body)), FaultOf(body).None?)
  }

  /** The events of a text read in one piece. */
  ghost function EventsOfText(text: bytes, ended: bool): seq<Dispatched> {
    Events(EMPTY, [], Texts(true, Closed(Lines(text), ended)), ended)
  }

  /** However a body is cut, its events are those of its data in one piece, except that a cut
      between a CR and its LF counts the LF as a second line end. */
  lemma EventsAreOfGluedText(body: seq<Frame>)
    ensures EventsOf(body) == EventsOfText(Glued(false, Chunks(body)), FaultOf(body).None?)
  {
    hide Events, Texts, Closed, FaultOf, Chunks;
    var text := Glued(false, Chunks(body));
    ScanIsGlued([], Chunks(body));
    assert [] + text == text;
  }

  // ---- lines and events ------------------------------------------------------------------------

  /** Feeding lines in two goes. */
  lemma {:induction false} FeedConcat(acc: Event, lastId: bytes, a: seq<bytes>, b: seq<bytes>)
    ensures var x := Feed(acc, lastId, a);
            var y := Feed(x.acc, x.lastId, b);
            Feed(acc, lastId, a + b) == Fed(x.events + y.events, y.acc, y.lastId)
    decreases |a|
  {
    hide Collect, Dispatch;
    if a == [] {
      assert a + b == b;
      assert [] + Feed(acc, lastId, b).events == Feed(acc, lastId, b).events;
    } else {
      assert (a + b)[1..] == a[1..] + b && (a + b)[0] == a[0];
      if a[0] != [] {
        FeedConcat(Collect(acc, a[0]), lastId, a[1..], b);
      } else if acc == EMPTY {
        FeedConcat(acc, lastId, a[1..], b);
      } else {
        var d := Dispatch(acc, lastId);
        FeedConcat(EMPTY, d.lastId, a[1..], b);
        var x := Feed(EMPTY, d.lastId, a[1..]);
        ConcatAssoc([d], x.events, Feed(x.acc, x.lastId, b).events);
      }
    }
  }

  lemma EventsConcat(acc: Event, lastId: bytes, a: seq<bytes>, b: seq<bytes>, ended: bool)
    ensures var x := Feed(acc, lastId, a);
            Events(acc, lastId, a + b, ended) == x.events + Events(x.acc, x.lastId, b, ended)
  {
    hide Feed;
    FeedConcat(acc, lastId, a, b);
  }

  lemma TextsCons(first: bool, line: bytes, rest: seq<bytes>)
    ensures Texts(first, [line] + rest) == [Text(first, line)] + Texts(false, rest)
  {
    assert ([line] + rest)[1..] == rest;
  }

  lemma {:induction false} TextsConcat(first: bool, a: seq<bytes>, b: seq<bytes>)
    requires a != []
    ensures Texts(first, a + b) == Texts(first, a) + Texts(false, b)
    decreases |a|
  {
    hide Text;
    assert a == [a[0]] + a[1..];
    assert (a + b)[1..] == a[1..] + b;
    if |a| == 1 {
      assert a[1..] + b == b;
    } else {
      TextsConcat(false, a[1..], b);
    }
  }

  lemma EmptyText()
    ensures Text(false, []) == []
  {
  }

  // ---- a blank line more -----------------------------------------------------------------------

  /** A line that sets no field changes no event, and no line unsets a field. */
  lemma CollectNothing(acc: Event, line: bytes)
    ensures Collect(EMPTY, line) == EMPTY ==> Collect(acc, line) == acc
    ensures acc != EMPTY ==> Collect(acc, line) != EMPTY
  {
  }

  /** No field is set before the next blank line, or before the end if there the rest is read. */
  predicate Idle(lines: seq<bytes>, ended: bool)
    decreases |lines|
  {
    if lines == [] then ended
    else lines[0] == [] || (Collect(EMPTY, lines[0]) == EMPTY && Idle(lines[1..], ended))
  }

  lemma NoMoreLines(acc: Event, lastId: bytes, ended: bool)
    ensures Events(acc, lastId, [], ended) == if ended && acc != EMPTY then [Dispatch(acc, lastId)] else []
  {
  }

  /** How many events there are depends only on whether one is under way. */
  lemma {:induction false} SameCount(a: Event, i: bytes, b: Event, j: bytes, lines: seq<bytes>, ended: bool)
    requires a == EMPTY <==> b == EMPTY
    ensures |Events(a, i, lines, ended)| == |Events(b, j, lines, ended)|
    decreases |lines|
  {
    hide Events, Collect, Dispatch;
    if lines == [] {
      NoMoreLines(a, i, ended);
      NoMoreLines(b, j, ended);
    } else {
      var line, rest := lines[0], lines[1..];
      assert lines == [line] + rest;
      EventsStep(a, i, line, rest, ended);
      EventsStep(b, j, line, rest, ended);
      if line != [] {
        CollectNothing(a, line);
        CollectNothing(b, line);
        SameCount(Collect(a, line), i, Collect(b, line), j, rest, ended);
      } else if a == EMPTY {
        SameCount(a, i, b, j, rest, ended);
      } else {
        SameCount(EMPTY, Dispatch(a, i).lastId, EMPTY, Dispatch(b, j).lastId, rest, ended);
      }
    }
  }

  /** Ending an event early changes nothing if what follows is idle, and otherwise makes one event
      into two. */
  lemma {:induction false} EarlyEnd(acc: Event, lastId: bytes, rest: seq<bytes>, ended: bool)
    requires acc != EMPTY
    ensures var d := Dispatch(acc, lastId);
            && (Idle(rest, ended) ==>
                  Events(acc, lastId, rest, ended) == [d] + Events(EMPTY, d.lastId, rest, ended))
            && (!Idle(rest, ended) ==>
                  |Events(acc, lastId, rest, ended)| == |Events(EMPTY, d.lastId, rest, ended)|)
    decreases |rest|
  {
    hide Events, Collect, Dispatch;
    var d := Dispatch(acc, lastId);
    if rest == [] {
      NoMoreLines(acc, lastId, ended);
      NoMoreLines(EMPTY, d.lastId, ended);
    } else {
      var line, more := rest[0], rest[1..];
      assert rest == [line] + more;
      EventsStep(acc, lastId, line, more, ended);
      EventsStep(EMPTY, d.lastId, line, more, ended);
      CollectNothing(acc, line);
      if line != [] && Collect(EMPTY, line) == EMPTY {
        EarlyEnd(acc, lastId, more, ended);
      } else if line != [] {
        SameCount(Collect(acc, line), lastId, Collect(EMPTY, line), d.lastId, more, ended);
      }
    }
  }

  // ---- one bad cut -----------------------------------------------------------------------------

  /** The event under way after the complete lines of a text. */
  ghost function Unfinished(t: bytes): Event {
    Feed(EMPTY, [], Texts(true, Lines(t).lines)).acc
  }

  /** A cut between the CR that ends `t` and an LF followed by `more` does no harm. */
  ghost predicate Harmless(t: bytes, more: bytes, ended: bool) {
    Unfinished(t) == EMPTY || Idle(Texts(false, Closed(Lines(more), ended)), ended)
  }

  /** The events of a text followed by further lines. */
  lemma EventsAfter(t: bytes, cut: Cut, ended: bool)
    requires Lines(t).lines != []
    ensures var x := Feed(EMPTY, [], Texts(true, Lines(t).lines));
            Events(EMPTY, [], Texts(true, Closed(Then(Lines(t), cut), ended)), ended)
            == x.events + Events(x.acc, x.lastId, Texts(false, Closed(cut, ended)), ended)
  {
    hide Lines, Feed, Events, Texts;
    var a, b := Lines(t).lines, Closed(cut, ended);
    ConcatAssoc(a, cut.lines, [cut.rest]);
    assert Closed(Then(Lines(t), cut), ended) == a + b;
    TextsConcat(true, a, b);
    EventsConcat(EMPTY, [], Texts(true, a), Texts(false, b), ended);
  }

  lemma OneBadCut(t: bytes, more: bytes, ended: bool)
    requires EndsCr(t)
    ensures var whole := EventsOfText(t + [LF] + more, ended);
            var cut := EventsOfText(t + [LF] + ([LF] + more), ended);
            && (Harmless(t, more, ended) ==> cut == whole)
            && (!Harmless(t, more, ended) ==> |cut| == |whole| + 1)
  {
    hide Lines, Feed, Events, Texts, Dispatch, Idle;
    CrEndsLine(t);
    GlueAddsBlank(t, more);
    var lines := Lines(more);
    EventsAfter(t, lines, ended);
    EventsAfter(t, Then(Cut([[]], []), lines), ended);
    ConcatAssoc([[]], lines.lines, [lines.rest]);
    assert Closed(Then(Cut([[]], []), lines), ended) == [[]] + Closed(lines, ended);
    TextsCons(false, [], Closed(lines, ended));
    EmptyText();
    var x, rest := Feed(EMPTY, [], Texts(true, Lines(t).lines)), Texts(false, Closed(lines, ended));
    EventsStep(x.acc, x.lastId, [], rest, ended);
    if x.acc != EMPTY {
      EarlyEnd(x.acc, x.lastId, rest, ended);
    }
  }

  lemma CrEndsLine(t: bytes)
    requires EndsCr(t)
    ensures Lines(t).lines != []
  {
    if EolAt(t) == |t| {
      assert IsEol(t[|t| - 1]);
    }
  }

  // ---- all cuts --------------------------------------------------------------------------------

  /** No cut between a CR and its LF does harm, given what was read before it. */
  ghost predicate HarmlessCuts(t: bytes, chunks: seq<bytes>, ended: bool)
    decreases |chunks|
  {
    chunks == [] ||
    (&& (EndsCr(t) && StartsLf(chunks[0]) ==> Harmless(t, chunks[0][1..] + Flatten(chunks[1..]), ended))
     && HarmlessCuts(t + Glue(t, chunks[0]) + chunks[0], chunks[1..], ended))
  }

  /** Cuts never lose an event; they leave the events alone if all of them are harmless, and make
      more events otherwise. */
  lemma {:induction false} CutsAddEvents(t: bytes, chunks: seq<bytes>, ended: bool)
    ensures var read := EventsOfText(t + Glued(EndsCr(t), chunks), ended);
            var sent := EventsOfText(t + Flatten(chunks), ended);
            && (HarmlessCuts(t, chunks, ended) ==> read == sent)
            && (!HarmlessCuts(t, chunks, ended) ==> |read| > |sent|)
    decreases |chunks|
  {
    hide Glued, Flatten, EventsOfText, Harmless;
    if chunks == [] {
      NothingGlued(EndsCr(t));
    } else {
      var c, rest := chunks[0], Flatten(chunks[1..]);
      GluedStep(t, chunks);
      CutsAddEvents(t + Glue(t, c) + c, chunks[1..], ended);
      if EndsCr(t) && StartsLf(c) {
        var more := c[1..] + rest;
        OneBadCut(t, more, ended);
        RegroupCut(t, c, rest);
      } else {
        assert t + [] == t;
        ConcatAssoc(t, c, rest);
      }
    }
  }

  lemma RegroupCut(t: bytes, c: bytes, rest: bytes)
    requires StartsLf(c)
    ensures t + [LF] + c + rest == t + [LF] + ([LF] + (c[1..] + rest))
    ensures t + (c + rest) == t + [LF] + (c[1..] + rest)
  {
    assert c == [LF] + c[1..];
    ConcatAssoc([LF], c[1..], rest);
    ConcatAssoc(t + [LF], c, rest);
    ConcatAssoc(t, [LF], c[1..] + rest);
  }

  /** A body is read as its text in one piece exactly when every cut between a CR and its LF is
      harmless: no event is under way there, or nothing is added to it before it ends anyway. */
  lemma CutsMatterExactly(body: seq<Frame>)
    ensures EventsOf(body) == EventsOfText(Flatten(Chunks(body)), FaultOf(body).None?)
       <==> HarmlessCuts([], Chunks(body), FaultOf(body).None?)
  {
    hide EventsOf, EventsOfText, HarmlessCuts, Glued, Flatten, Chunks, FaultOf;
    var chunks, ended := Chunks(body), FaultOf(body).None?;
    EventsAreOfGluedText(body);
    CutsAddEvents([], chunks, ended);
    assert [] + Glued(false, chunks) == Glued(false, chunks) && [] + Flatten(chunks) == Flatten(chunks);
  }

  lemma {:induction false} CleanIsHarmless(t: bytes, chunks: seq<bytes>, ended: bool)
    requires CleanCuts(EndsCr(t), chunks)
    ensures HarmlessCuts(t, chunks, ended)
    decreases |chunks|
  {
    hide Harmless;
    if chunks != [] {
      EndsCrAfter(t, chunks[0]);
      CleanIsHarmless(t + Glue(t, chunks[0]) + chunks[0], chunks[1..], ended);
    }
  }

  /** Two bodies with the same data, both without a harmful cut, give the same events and the same
      last event identifiers. */
  lemma CutsDoNotMatter(a: seq<Frame>, b: seq<Frame>)
    requires Flatten(Chunks(a)) == Flatten(Chunks(b)) && FaultOf(a) == FaultOf(b)
    requires HarmlessCuts([], Chunks(a), FaultOf(a).None?) && HarmlessCuts([], Chunks(b), FaultOf(b).None?)
    ensures EventsOf(a) == EventsOf(b)
  {
    hide EventsOf, EventsOfText, HarmlessCuts, Chunks, FaultOf, Flatten;
    CutsMatterExactly(a);
    CutsMatterExactly(b);
  }

  // ---- a harmful cut ---------------------------------------------------------------------------

  /** Two data lines: cut between the CR and the LF they are two events, uncut they are one. */
  lemma CutCanMatter()
    ensures var body := [Chunk(DATA + [CR]), Chunk([LF] + DATA)];
            EventsOf(body) != EventsOfText(Flatten(Chunks(body)), true)
  {
    hide EventsOf, EventsOfText, Harmless;
    var first, second := DATA + [CR], [LF] + DATA;
    var body := [Chunk(first), Chunk(second)];
    TwoChunks(first, second);
    CutsMatterExactly(body);
    var chunks, tail: seq<bytes> := [first, second], [second];
    var none: seq<bytes> := [];
    assert chunks[1..] == tail && tail[1..] == none;
    assert [] + Glue([], first) + first == first;
    assert second[1..] + Flatten(none) == DATA;
    DataLineIsUnderWay();
    assert !HarmlessCuts(first, tail, true);
    assert !HarmlessCuts([], chunks, true);
  }

  lemma TwoChunks(a: bytes, b: bytes)
    ensures Chunks([Chunk(a), Chunk(b)]) == [a, b] && FaultOf([Chunk(a), Chunk(b)]) == None
  {
    var body := [Chunk(a), Chunk(b)];
    assert body[1..] == [Chunk(b)] && body[1..][1..] == [];
    assert Chunks(body[1..]) == [b] + Chunks([]);
    assert FaultOf(body[1..]) == FaultOf([]);
  }

  lemma DataLineIsUnderWay()
    ensures !Harmless(DATA + [CR], DATA, true)
  {
    hide Utf8.Lossy, Utf8.Valid;
    var t := DATA + [CR];
    assert EolAt(t) == 4 by { PlainText(t, 4); }
    assert t[..4] == DATA && t[AfterEol(t, 4)..] == [];
    assert Lines(t).lines == [DATA] + Lines(t[5..]).lines;
    assert EolAt(DATA) == 4 by { PlainText(DATA, 4); }
    assert Closed(Lines(DATA), true) == [DATA];
    Utf8.AsciiValid(DATA);
    Utf8.LossyKeepsValid(DATA);
    TextsCons(true, DATA, []);
    TextsCons(false, DATA, []);
    assert [DATA] + [] == [DATA];
    DataCounts();
    assert [DATA][1..] == [];
    assert Feed(EMPTY, [], [DATA]) == Feed(Collect(EMPTY, DATA), [], [DATA][1..]);
  }

  lemma PlainText(t: bytes, n: nat)
    requires n <= |t| && (forall i :: 0 <= i < n ==> !IsEol(t[i])) && (n < |t| ==> IsEol(t[n]))
    ensures EolAt(t) == n
  {
  }

  lemma DataCounts()
    ensures Collect(EMPTY, DATA) != EMPTY
  {
    assert forall i :: 0 <= i < |DATA| ==> DATA[i] != COLON;
    assert DATA[..ColonAt(DATA)] == DATA;
  }
}
