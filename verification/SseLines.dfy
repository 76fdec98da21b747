/** Splitting an event stream into lines: LF, CR and CRLF each end a line. */
module SseLines {
  import opened Bytes

  predicate IsEol(b: byte) {
    b == CR || b == LF
  }

  /** Position of the first line terminator, or the length of the text. */
  function EolAt(s: bytes): (n: nat)
    ensures n <= |s|
    ensures forall i :: 0 <= i < n ==> !IsEol(s[i])
    ensures n < |s| ==> IsEol(s[n])
  {
    if s == [] || IsEol(s[0]) then 0 else 1 + EolAt(s[1..])
  }

  /** Position after the terminator at `n`; a CR takes a directly following LF with it. */
  function AfterEol(s: bytes, n: nat): (m: nat)
    requires n < |s|
    ensures n < m <= |s|
  {
    if s[n] == CR && n + 1 < |s| && s[n + 1] == LF then n + 2 else n + 1
  }

  /** The complete lines of a text and the unterminated rest. */
  datatype Cut = Cut(lines: seq<bytes>, rest: bytes)

  function Lines(s: bytes): (r: Cut)
    decreases |s|
  {
    var n := EolAt(s);
    if n == |s| then Cut([], s)
    else
      var tail := Lines(s[AfterEol(s, n)..]);
      Cut([s[..n]] + tail.lines, tail.rest)
  }

  function Then(a: Cut, b: Cut): Cut {
    Cut(a.lines + b.lines, b.rest)
  }

  predicate EndsCr(s: bytes) {
    s != [] && s[|s| - 1] == CR
  }

  predicate StartsLf(s: bytes) {
    s != [] && s[0] == LF
  }

  /** Splitting can be interrupted anywhere except between a CR and its LF. */
  lemma {:induction false} LinesConcat(a: bytes, b: bytes)
    requires !(EndsCr(a) && StartsLf(b))
    ensures Lines(a + b) == Then(Lines(a), Lines(Lines(a).rest + b))
    decreases |a|
  {
    hide EolAt;
    var n := EolAt(a);
    if n == |a| {
      assert [] + Lines(a + b).lines == Lines(a + b).lines;
    } else {
      var m := AfterEol(a, n);
      EolPrefix(a, b);
      assert AfterEol(a + b, n) == m;
      assert (a + b)[m..] == a[m..] + b;
      assert (a + b)[..n] == a[..n];
      assert !(EndsCr(a[m..]) && StartsLf(b));
      LinesConcat(a[m..], b);
      ConcatAssoc([a[..n]], Lines(a[m..]).lines, Lines(Lines(a).rest + b).lines);
    }
  }

  lemma {:induction false} EolPrefix(a: bytes, b: bytes)
    requires EolAt(a) < |a|
    ensures EolAt(a + b) == EolAt(a)
  {
    if !IsEol(a[0]) {
      assert (a + b)[1..] == a[1..] + b;
      EolPrefix(a[1..], b);
    }
  }

  /** A text that ends in CR is split alike with or without the LF completing it. */
  lemma {:induction false} LinesEndCrLf(a: bytes)
    requires EndsCr(a)
    ensures Lines(a + [LF]) == Lines(a) && Lines(a).rest == []
    decreases |a|
  {
    var n := EolAt(a);
    EolPrefix(a, [LF]);
    var s := a + [LF];
    var m := AfterEol(a, n);
    assert s[..n] == a[..n];
    if m == |a| {
      assert n + 1 == |a|;
      assert AfterEol(s, n) == |a| + 1;
      assert s[|a| + 1..] == [] && a[m..] == [];
    } else {
      assert AfterEol(s, n) == m;
      assert s[m..] == a[m..] + [LF];
      LinesEndCrLf(a[m..]);
    }
  }

  // ---- reading in chunks ---------------------------------------------------------------------

  /** The lines a reader sees that drains its buffer before it takes the next chunk. */
  function Scan(partial: bytes, chunks: seq<bytes>): (r: Cut)
    decreases |chunks|
  {
    if chunks == [] then Cut([], partial)
    else
      var cut := Lines(partial + chunks[0]);
      Then(cut, Scan(cut.rest, chunks[1..]))
  }

  /** The chunks put together, with an extra LF wherever a cut separates a CR from its LF. */
  function Glued(afterCr: bool, chunks: seq<bytes>): (r: bytes)
    decreases |chunks|
  {
    if chunks == [] then []
    else
      var c := chunks[0];
      (if afterCr && StartsLf(c) then [LF] else []) + c
      + Glued(if c == [] then afterCr else EndsCr(c), chunks[1..])
  }

  /** No cut falls between a CR and the LF right after it. */
  predicate CleanCuts(afterCr: bool, chunks: seq<bytes>)
    decreases |chunks|
  {
    chunks == [] ||
    (!(afterCr && StartsLf(chunks[0]))
     && CleanCuts(if chunks[0] == [] then afterCr else EndsCr(chunks[0]), chunks[1..]))
  }

  lemma {:induction false} GluedClean(afterCr: bool, chunks: seq<bytes>)
    requires CleanCuts(afterCr, chunks)
    ensures Glued(afterCr, chunks) == Flatten(chunks)
    decreases |chunks|
  {
    if chunks != [] {
      GluedClean(if chunks[0] == [] then afterCr else EndsCr(chunks[0]), chunks[1..]);
    }
  }

  /** One more chunk after text `t`. */
  lemma LinesNextChunk(t: bytes, c: bytes)
    ensures var glue := if EndsCr(t) && StartsLf(c) then [LF] else [];
            Lines(t + glue + c) == Then(Lines(t), Lines(Lines(t).rest + c))
  {
    if EndsCr(t) && StartsLf(c) {
      LinesEndCrLf(t);
      LinesConcat(t + [LF], c);
    } else {
      assert t + [] + c == t + c;
      LinesConcat(t, c);
    }
  }

  lemma ThenAssoc(a: Cut, b: Cut, c: Cut)
    ensures Then(a, Then(b, c)) == Then(Then(a, b), c)
  {
    ConcatAssoc(a.lines, b.lines, c.lines);
  }

  /** However a stream is cut, a chunk-wise reader sees exactly the lines of the glued text. */
  lemma {:induction false} ScanIsGlued(t: bytes, chunks: seq<bytes>)
    ensures Lines(t + Glued(EndsCr(t), chunks)) == Then(Lines(t), Scan(Lines(t).rest, chunks))
    decreases |chunks|
  {
    hide Lines;
    if chunks == [] {
      assert t + [] == t;
      assert Lines(t).lines + [] == Lines(t).lines;
    } else {
      var c := chunks[0];
      var glue := if EndsCr(t) && StartsLf(c) then [LF] else [];
      var t' := t + glue + c;
      var more := Glued(if c == [] then EndsCr(t) else EndsCr(c), chunks[1..]);
      LinesNextChunk(t, c);
      assert EndsCr(t') == if c == [] then EndsCr(t) else EndsCr(c) by {
        if c == [] { assert t' == t; } else { assert t'[|t'| - 1] == c[|c| - 1]; }
      }
      assert t + (glue + c + more) == t' + more;
      ScanIsGlued(t', chunks[1..]);
      var cut := Lines(Lines(t).rest + c);
      ThenAssoc(Lines(t), cut, Scan(cut.rest, chunks[1..]));
    }
  }

  // ---- what a bad cut costs ------------------------------------------------------------------

  /** The number of cuts between a CR and the LF right after it. */
  function BadCuts(afterCr: bool, chunks: seq<bytes>): (n: nat)
    ensures n == 0 <==> CleanCuts(afterCr, chunks)
    decreases |chunks|
  {
    if chunks == [] then 0
    else
      (if afterCr && StartsLf(chunks[0]) then 1 else 0)
      + BadCuts(if chunks[0] == [] then afterCr else EndsCr(chunks[0]), chunks[1..])
  }

  /** Gluing an LF between a CR and its LF adds exactly one line, a blank one, right there. */
  lemma GlueAddsBlank(t: bytes, more: bytes)
    requires EndsCr(t)
    ensures Lines(t + [LF] + more) == Then(Lines(t), Lines(more))
    ensures Lines(t + [LF] + ([LF] + more)) == Then(Lines(t), Then(Cut([[]], []), Lines(more)))
  {
    var u := t + [LF];
    LinesEndCrLf(t);
    LinesConcat(u, more);
    assert [] + more == more;
    LinesConcat(u, [LF] + more);
    assert [] + ([LF] + more) == [LF] + more;
    assert ([LF] + more)[..0] == [] && ([LF] + more)[1..] == more;
  }

  /** Every bad cut adds exactly one line, and nothing else changes the number of lines. */
  lemma {:induction false} GluedLineCount(t: bytes, chunks: seq<bytes>)
    ensures |Lines(t + Glued(EndsCr(t), chunks)).lines|
         == |Lines(t + Flatten(chunks)).lines| + BadCuts(EndsCr(t), chunks)
    decreases |chunks|
  {
    hide Lines, Glued, Flatten, BadCuts;
    if chunks == [] {
      NothingGlued(EndsCr(t));
    } else {
      var t' := t + Glue(t, chunks[0]) + chunks[0];
      GluedStep(t, chunks);
      GluedLineCount(t', chunks[1..]);
      OneCut(t, chunks[0], Flatten(chunks[1..]));
    }
  }

  function Glue(t: bytes, c: bytes): bytes {
    if EndsCr(t) && StartsLf(c) then [LF] else []
  }

  lemma NothingGlued(afterCr: bool)
    ensures Glued(afterCr, []) == Flatten([]) && BadCuts(afterCr, []) == 0
  {
  }

  lemma GluedStep(t: bytes, chunks: seq<bytes>)
    requires chunks != []
    ensures var t' := t + Glue(t, chunks[0]) + chunks[0];
            && t + Glued(EndsCr(t), chunks) == t' + Glued(EndsCr(t'), chunks[1..])
            && t + Flatten(chunks) == t + (chunks[0] + Flatten(chunks[1..]))
            && BadCuts(EndsCr(t), chunks) == |Glue(t, chunks[0])| + BadCuts(EndsCr(t'), chunks[1..])
  {
    EndsCrAfter(t, chunks[0]);
    var c := chunks[0];
    var more := Glued(if c == [] then EndsCr(t) else EndsCr(c), chunks[1..]);
    ConcatAssoc(t, Glue(t, c) + c, more);
    ConcatAssoc(t, Glue(t, c), c);
  }

  /** One cut after text `t`. */
  lemma OneCut(t: bytes, c: bytes, rest: bytes)
    ensures |Lines(t + Glue(t, c) + c + rest).lines| == |Lines(t + (c + rest)).lines| + |Glue(t, c)|
  {
    hide Lines;
    if EndsCr(t) && StartsLf(c) {
      var more := c[1..] + rest;
      GlueAddsBlank(t, more);
      assert c == [LF] + c[1..];
      ConcatAssoc([LF], c[1..], rest);
      ConcatAssoc(t + [LF], c, rest);
      ConcatAssoc(t, [LF], more);
    } else {
      assert t + [] == t;
      ConcatAssoc(t, c, rest);
    }
  }

  lemma EndsCrAfter(t: bytes, c: bytes)
    ensures EndsCr(t + Glue(t, c) + c) == if c == [] then EndsCr(t) else EndsCr(c)
  {
    if c == [] {
      assert t + [] + c == t;
    }
  }

  /** Reading in chunks sees the lines of the text exactly when no cut falls between a CR and its
      LF. */
  lemma ScanExactlyWhenClean(chunks: seq<bytes>)
    ensures Scan([], chunks) == Lines(Flatten(chunks)) <==> CleanCuts(false, chunks)
  {
    hide Lines;
    ScanIsGlued([], chunks);
    GluedLineCount([], chunks);
    NoLines();
    assert [] + Glued(false, chunks) == Glued(false, chunks) && [] + Flatten(chunks) == Flatten(chunks);
    assert [] + Scan([], chunks).lines == Scan([], chunks).lines;
    if CleanCuts(false, chunks) {
      GluedClean(false, chunks);
    }
  }

  lemma NoLines()
    ensures Lines([]) == Cut([], [])
  {
  }
}
