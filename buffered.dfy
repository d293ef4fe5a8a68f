/** A line-buffered chunk decoder, kept apart from the model of the SDK: it carries
    the unterminated tail of each chunk over into the next one, so lines are cut
    at '\n' in the joined body text rather than in each chunk on its own. The SDK's
    decoder (`StreamDecoder.ChunkedStream`) splits every chunk independently; the
    lemmas below show an input where the two differ, and that the buffered decoder
    depends only on the joined text. */
module BufferedDecoder {
  import opened Common
  import opened Text
  import opened Transport
  import opened Sdk
  import opened StreamDecoder
  import opened PullProgress
  import opened Ollama

  /** The lines of the chunks when the open piece `cur` is carried from chunk to
      chunk, and flushed at the first final chunk or at the end of the chunks. */
  function BufferedLines(cur: string, cs: seq<Chunk>): (r: seq<string>)
    ensures |r| >= 1
    decreases |cs|
  {
    if cs == [] then [cur]
    else
      var t := Scan(cur, cs[0].data);
      if cs[0].isFinal then t.0 + [t.1]
      else t.0 + BufferedLines(t.1, cs[1..])
  }

  /** The buffered decoder: the same per-line rule and stop rule as the SDK's,
      applied to the buffered lines. */
  function BufferedStream<T>(cs: seq<Chunk>, processLine: Option<string -> string>,
                             decode: string -> DecodeResult<T>, stop: Option<T -> bool>): seq<T> {
    UntilStop(LinesRecords(BufferedLines([], cs), processLine, decode), stop)
  }

  /** Carrying the open piece across chunks cuts the joined text exactly where
      `Split` would. */
  lemma {:induction false} BufferedLinesSplitText(cur: string, cs: seq<Chunk>)
    ensures BufferedLines(cur, cs) == SplitFrom(cur, ChunkedText(cs))
    decreases |cs|
  {
    if cs == [] {
    } else if cs[0].isFinal {
      assert UpToFinal(cs) == [cs[0]];
      assert ChunksText([cs[0]]) == cs[0].data + ChunksText([]);
      assert ChunkedText(cs) == cs[0].data;
    } else {
      var t := Scan(cur, cs[0].data);
      BufferedLinesSplitText(t.1, cs[1..]);
      assert UpToFinal(cs) == [cs[0]] + UpToFinal(cs[1..]);
      assert ChunkedText(cs) == cs[0].data + ChunkedText(cs[1..]);
      ScanAppend(cur, cs[0].data, ChunkedText(cs[1..]));
    }
  }

  /** Removing empty pieces never changes the records, since an empty line is blank. */
  lemma {:induction false} RemoveEmptyKeepsRecords<T>(ps: seq<string>, processLine: Option<string -> string>,
                                                      decode: string -> DecodeResult<T>)
    ensures LinesRecords(RemoveEmpty(ps), processLine, decode) == LinesRecords(ps, processLine, decode)
    decreases |ps|
  {
    if ps != [] {
      RemoveEmptyKeepsRecords(ps[1..], processLine, decode);
      var head := if ps[0] == [] then [] else [ps[0]];
      LinesRecordsAppend(head, RemoveEmpty(ps[1..]), processLine, decode);
      if ps[0] != [] {
        assert LinesRecords(head, processLine, decode)
            == LineRecord(ps[0], processLine, decode) + LinesRecords([], processLine, decode);
      }
    }
  }

  /** The buffered decoder depends on the joined body text alone: it decodes the
      '\n'-separated lines of everything `ReadResponse` would return. */
  lemma BufferedStreamOfText<T>(cs: seq<Chunk>, processLine: Option<string -> string>,
                                decode: string -> DecodeResult<T>, stop: Option<T -> bool>)
    ensures BufferedStream(cs, processLine, decode, stop)
         == UntilStop(LinesRecords(Split(ChunkedText(cs)), processLine, decode), stop)
  {
    BufferedLinesSplitText([], cs);
  }

  /** So however the transport cuts the body into chunks, the buffered records are
      the same: two chunkings with the same joined text decode alike. */
  lemma BufferedIgnoresChunking<T>(cs1: seq<Chunk>, cs2: seq<Chunk>, processLine: Option<string -> string>,
                                   decode: string -> DecodeResult<T>, stop: Option<T -> bool>)
    requires ChunkedText(cs1) == ChunkedText(cs2)
    ensures BufferedStream(cs1, processLine, decode, stop) == BufferedStream(cs2, processLine, decode, stop)
  {
    BufferedStreamOfText(cs1, processLine, decode, stop);
    BufferedStreamOfText(cs2, processLine, decode, stop);
  }

  /** For a body that arrives as one final chunk the two decoders agree. */
  lemma SingleChunkAgrees<T>(s: string, processLine: Option<string -> string>,
                             decode: string -> DecodeResult<T>, stop: Option<T -> bool>)
    ensures ChunkedStream([Chunk(s, true)], processLine, decode, stop)
         == BufferedStream([Chunk(s, true)], processLine, decode, stop)
  {
    var c := Chunk(s, true);
    assert UpToFinal([c]) == [c];
    assert ChunksRecords([c], processLine, decode)
        == ChunkRecords(c, processLine, decode) + ChunksRecords([], processLine, decode);
    assert BufferedLines([], [c]) == Split(s);
    RemoveEmptyKeepsRecords(Split(s), processLine, decode);
    assert ChunkRecords(c, processLine, decode) == LinesRecords(Split(s), processLine, decode);
    assert ChunksRecords(UpToFinal([c]), processLine, decode) == LinesRecords(Split(s), processLine, decode);
  }

  lemma NoNewlineConcat(a: string, b: string)
    requires NoNewline(a) && NoNewline(b)
    ensures NoNewline(a + b)
  {
    forall i | 0 <= i < |a + b| ensures (a + b)[i] != '\n' {
      if i >= |a| { assert (a + b)[i] == b[i - |a|]; }
    }
  }

  /** The records of two lines, in order. */
  lemma TwoLines<T>(x: string, y: string, processLine: Option<string -> string>, decode: string -> DecodeResult<T>)
    ensures LinesRecords([x, y], processLine, decode)
         == LineRecord(x, processLine, decode) + LineRecord(y, processLine, decode)
  {
    assert LinesRecords([x, y], processLine, decode)
        == LineRecord(x, processLine, decode) + LinesRecords([y], processLine, decode);
    assert LinesRecords([y], processLine, decode)
        == LineRecord(y, processLine, decode) + LinesRecords([], processLine, decode);
  }

  /** The as-written records of one chunk holding two '\n'-separated pieces. */
  lemma ChunkOfTwoPieces<T>(x: string, y: string, processLine: Option<string -> string>,
                            decode: string -> DecodeResult<T>, isFinal: bool)
    requires NoNewline(x) && NoNewline(y)
    ensures ChunkRecords(Chunk(x + "\n" + y, isFinal), processLine, decode)
         == LineRecord(x, processLine, decode) + LineRecord(y, processLine, decode)
  {
    JoinSplit([x, y]);
    assert JoinLines([x, y]) == x + "\n" + y;
    RemoveEmptyKeepsRecords([x, y], processLine, decode);
    TwoLines(x, y, processLine, decode);
  }

  /** The as-written records of the two chunks `a + "\n" + b1` and `b2 + "\n"`:
      each fragment of the straddling line is decoded on its own. */
  lemma AsWrittenFragments<T>(a: string, b1: string, b2: string,
                              processLine: Option<string -> string>, decode: string -> DecodeResult<T>)
    requires NoNewline(a) && NoNewline(b1) && NoNewline(b2)
    ensures ChunksRecords(UpToFinal([Chunk(a + "\n" + b1, false), Chunk(b2 + "\n", true)]), processLine, decode)
         == LineRecord(a, processLine, decode) + LineRecord(b1, processLine, decode)
          + LineRecord(b2, processLine, decode)
  {
    var c1 := Chunk(a + "\n" + b1, false);
    var c2 := Chunk(b2 + "\n", true);
    var cs := [c1, c2];
    assert UpToFinal(cs) == cs by {
      assert cs[1..] == [c2];
      assert UpToFinal([c2]) == [c2];
    }
    var x := ChunkRecords(c1, processLine, decode);
    var y := ChunkRecords(c2, processLine, decode);
    ChunkOfTwoPieces(a, b1, processLine, decode, false);
    assert b2 + "\n" == b2 + "\n" + [];
    ChunkOfTwoPieces(b2, [], processLine, decode, true);
    assert LineRecord([], processLine, decode) == [];
    assert y == LineRecord(b2, processLine, decode);
    assert ChunksRecords([c2], processLine, decode) == y by {
      assert ChunksRecords([c2], processLine, decode) == y + ChunksRecords([], processLine, decode);
    }
    assert ChunksRecords(cs, processLine, decode) == x + y by {
      assert cs[0] == c1 && cs[1..] == [c2];
    }
  }

  /** The buffered records of the same two chunks: the straddling line is whole. */
  lemma BufferedWhole<T>(a: string, b1: string, b2: string,
                         processLine: Option<string -> string>, decode: string -> DecodeResult<T>)
    requires NoNewline(a) && NoNewline(b1) && NoNewline(b2)
    ensures LinesRecords(BufferedLines([], [Chunk(a + "\n" + b1, false), Chunk(b2 + "\n", true)]), processLine, decode)
         == LineRecord(a, processLine, decode) + LineRecord(b1 + b2, processLine, decode)
  {
    var c1 := Chunk(a + "\n" + b1, false);
    var c2 := Chunk(b2 + "\n", true);
    var cs := [c1, c2];
    BufferedLinesSplitText([], cs);
    assert UpToFinal(cs) == [c1] + UpToFinal([c2]);
    assert UpToFinal([c2]) == [c2];
    assert ChunksText([c1, c2]) == c1.data + ChunksText([c2]);
    assert ChunksText([c2]) == c2.data + ChunksText([]);
    var text := a + "\n" + (b1 + b2) + "\n";
    assert ChunkedText(cs) == text;
    NoNewlineConcat(b1, b2);
    JoinSplit([a, b1 + b2, []]);
    assert JoinLines([[]]) == [];
    assert JoinLines([b1 + b2, []]) == (b1 + b2) + "\n" + [];
    assert JoinLines([a, b1 + b2, []]) == a + "\n" + JoinLines([b1 + b2, []]);
    assert JoinLines([a, b1 + b2, []]) == text;
    assert Split(text) == [a, b1 + b2, []];
    assert LinesRecords([a, b1 + b2, []], processLine, decode)
        == LineRecord(a, processLine, decode) + LinesRecords([b1 + b2, []], processLine, decode);
    TwoLines(b1 + b2, [], processLine, decode);
  }

  /** The discrepancy, for any line split across a chunk boundary whose two halves
      do not decode on their own: the SDK's decoder loses the record, the buffered
      one yields it. */
  lemma StraddlingLineLost<T>(a: string, b1: string, b2: string,
                              processLine: Option<string -> string>, decode: string -> DecodeResult<T>,
                              stop: Option<T -> bool>, v1: T, v2: T)
    requires NoNewline(a) && NoNewline(b1) && NoNewline(b2)
    requires !IsBlank(a) && decode(Transform(processLine, a)) == Parsed(v1) && !Stops(stop, v1)
    requires !decode(Transform(processLine, b1)).Parsed? && !decode(Transform(processLine, b2)).Parsed?
    requires !IsBlank(b1 + b2) && decode(Transform(processLine, b1 + b2)) == Parsed(v2)
    ensures ChunkedStream([Chunk(a + "\n" + b1, false), Chunk(b2 + "\n", true)], processLine, decode, stop) == [v1]
    ensures BufferedStream([Chunk(a + "\n" + b1, false), Chunk(b2 + "\n", true)], processLine, decode, stop) == [v1, v2]
  {
    StraddlingAsWritten(a, b1, b2, processLine, decode, stop, v1);
    StraddlingBuffered(a, b1, b2, processLine, decode, stop, v1, v2);
  }

  /** The as-written half of that discrepancy: only the record before the boundary. */
  lemma StraddlingAsWritten<T>(a: string, b1: string, b2: string,
                               processLine: Option<string -> string>, decode: string -> DecodeResult<T>,
                               stop: Option<T -> bool>, v1: T)
    requires NoNewline(a) && NoNewline(b1) && NoNewline(b2)
    requires !IsBlank(a) && decode(Transform(processLine, a)) == Parsed(v1) && !Stops(stop, v1)
    requires !decode(Transform(processLine, b1)).Parsed? && !decode(Transform(processLine, b2)).Parsed?
    ensures ChunkedStream([Chunk(a + "\n" + b1, false), Chunk(b2 + "\n", true)], processLine, decode, stop) == [v1]
  {
    var cs := [Chunk(a + "\n" + b1, false), Chunk(b2 + "\n", true)];
    var ra, rb1, rb2 := LineRecord(a, processLine, decode), LineRecord(b1, processLine, decode),
                        LineRecord(b2, processLine, decode);
    assert ra == [v1] && rb1 == [] && rb2 == [];
    AsWrittenFragments(a, b1, b2, processLine, decode);
    assert ChunksRecords(UpToFinal(cs), processLine, decode) == [v1];
    UntilStopNone([v1], stop);
  }

  /** The buffered half of that discrepancy: both records. */
  lemma StraddlingBuffered<T>(a: string, b1: string, b2: string,
                              processLine: Option<string -> string>, decode: string -> DecodeResult<T>,
                              stop: Option<T -> bool>, v1: T, v2: T)
    requires NoNewline(a) && NoNewline(b1) && NoNewline(b2)
    requires !IsBlank(a) && decode(Transform(processLine, a)) == Parsed(v1) && !Stops(stop, v1)
    requires !IsBlank(b1 + b2) && decode(Transform(processLine, b1 + b2)) == Parsed(v2)
    ensures BufferedStream([Chunk(a + "\n" + b1, false), Chunk(b2 + "\n", true)], processLine, decode, stop) == [v1, v2]
  {
    var cs := [Chunk(a + "\n" + b1, false), Chunk(b2 + "\n", true)];
    var ra, rb := LineRecord(a, processLine, decode), LineRecord(b1 + b2, processLine, decode);
    assert ra == [v1] && rb == [v2];
    BufferedWhole(a, b1, b2, processLine, decode);
    assert LinesRecords(BufferedLines([], cs), processLine, decode) == [v1] + [v2];
    UntilStopAppend([v1], [v2], stop);
    assert UntilStop([v2], stop) == [v2];
  }

  /** The pull of a model whose `success` record arrives split over two chunks: the
      SDK's `PullModel` yields only the `pulling` record and never reports the pull
      complete, where a buffered decoder would yield the completed record too. */
  lemma PullCompletionLost(decode: string -> DecodeResult<PullModelResponse>, p1: PullModelResponse,
                           p2: PullModelResponse)
    requires decode("{\"status\":\"pulling\"}") == Parsed(p1) && !IsComplete(p1)
    requires decode("{\"sta").Malformed? && decode("tus\":\"success\"}").Malformed?
    requires decode("{\"status\":\"success\"}") == Parsed(p2) && IsComplete(p2)
    ensures var cs := [Chunk("{\"status\":\"pulling\"}\n{\"sta", false), Chunk("tus\":\"success\"}\n", true)];
      && PullModelRecords(Some(Response(200, Chunked(cs))), decode) == [p1]
      && BufferedStream(cs, None, decode, Some(IsComplete)) == [p1, p2]
  {
    var cs := [Chunk("{\"status\":\"pulling\"}\n{\"sta", false), Chunk("tus\":\"success\"}\n", true)];
    PullOfChunks(cs, decode);
    SamplePieces();
    assert Transform(None, "{\"status\":\"pulling\"}") == "{\"status\":\"pulling\"}";
    StraddlingLineLost("{\"status\":\"pulling\"}", "{\"sta", "tus\":\"success\"}",
                       None, decode, Some(IsComplete), p1, p2);
  }

  /** A successful chunked pull yields the chunked stream, cut at the completed record. */
  lemma PullOfChunks(cs: seq<Chunk>, decode: string -> DecodeResult<PullModelResponse>)
    ensures PullModelRecords(Some(Response(200, Chunked(cs))), decode)
         == ChunkedStream(cs, None, decode, Some(IsComplete))
  {
    assert IsSuccess(200);
  }

  /** The text facts about the pieces of that pull. */
  lemma SamplePieces()
    ensures var a := "{\"status\":\"pulling\"}";
            var b1 := "{\"sta";
            var b2 := "tus\":\"success\"}";
      && NoNewline(a) && NoNewline(b1) && NoNewline(b2)
      && !IsBlank(a) && !IsBlank(b1 + b2)
      && b1 + b2 == "{\"status\":\"success\"}"
      && a + "\n" + b1 == "{\"status\":\"pulling\"}\n{\"sta"
      && b2 + "\n" == "tus\":\"success\"}\n"
  {
    SamplePiecesLines();
    SamplePiecesJoined();
  }

  /** None of the pieces holds a line break, and the whole records are not blank. */
  lemma SamplePiecesLines()
    ensures var a := "{\"status\":\"pulling\"}";
            var b1 := "{\"sta";
            var b2 := "tus\":\"success\"}";
      && NoNewline(a) && NoNewline(b1) && NoNewline(b2)
      && !IsBlank(a) && !IsBlank(b1 + b2)
  {
    var a := "{\"status\":\"pulling\"}";
    var b1 := "{\"sta";
    var b2 := "tus\":\"success\"}";
    assert !IsBlank(a) by { assert a[0] == '{'; }
    assert !IsBlank(b1 + b2) by { assert (b1 + b2)[0] == '{'; }
  }

  /** How the pieces join into the record and the chunk texts. */
  lemma SamplePiecesJoined()
    ensures var a := "{\"status\":\"pulling\"}";
            var b1 := "{\"sta";
            var b2 := "tus\":\"success\"}";
      && b1 + b2 == "{\"status\":\"success\"}"
      && a + "\n" + b1 == "{\"status\":\"pulling\"}\n{\"sta"
      && b2 + "\n" == "tus\":\"success\"}\n"
  { }

  // ----- The buffered read loop -----

  /** Splitting the carried piece and a chunk's text together is scanning the
      chunk's text from the carried piece, when that piece holds no '\n'. */
  lemma SplitCarried(buffer: string, data: string)
    requires NoNewline(buffer)
    ensures Split(buffer + data) == SplitFrom(buffer, data)
  {
    ScanNoNewline([], buffer);
    assert [] + buffer == buffer;
    ScanAppend([], buffer, data);
  }

  /** What one chunk contributes to the buffered lines: all the pieces of the carried
      piece and its text when it is final, else all of them but the last, which is
      carried on. */
  lemma BufferedStep(buffer: string, cs: seq<Chunk>, i: nat)
    requires i < |cs| && NoNewline(buffer)
    ensures var pieces := Split(buffer + cs[i].data);
      && (cs[i].isFinal ==> BufferedLines(buffer, cs[i..]) == pieces)
      && (!cs[i].isFinal ==>
            && BufferedLines(buffer, cs[i..])
               == pieces[..|pieces| - 1] + BufferedLines(pieces[|pieces| - 1], cs[i + 1..])
            && NoNewline(pieces[|pieces| - 1]))
  {
    SplitCarried(buffer, cs[i].data);
    SplitFromNoNewline(buffer, cs[i].data);
    var pieces := Split(buffer + cs[i].data);
    var t := Scan(buffer, cs[i].data);
    assert pieces == t.0 + [t.1];
    assert pieces[..|pieces| - 1] == t.0;
    assert cs[i..][0] == cs[i] && cs[i..][1..] == cs[i + 1..];
  }

  /** The loop stopped inside `lines`: what it yielded is the buffered stream. */
  lemma FinishStopped<T>(all: seq<T>, out: seq<T>, lines: seq<string>, rest: seq<T>, recs: seq<T>,
                         processLine: Option<string -> string>, decode: string -> DecodeResult<T>,
                         stop: Option<T -> bool>)
    requires all == out + (LinesRecords(lines, processLine, decode) + rest)
    requires NoStopIn(out, stop)
    requires recs == UntilStop(LinesRecords(lines, processLine, decode), stop)
    requires !NoStopIn(LinesRecords(lines, processLine, decode), stop)
    ensures out + recs == UntilStop(all, stop)
  {
    UntilStopAppend(out, LinesRecords(lines, processLine, decode) + rest, stop);
    UntilStopIgnoresTail(LinesRecords(lines, processLine, decode), rest, stop);
  }

  /** What the lines of one non-final chunk contribute to the buffered loop. */
  lemma AfterLines<T>(all: seq<T>, out: seq<T>, lines: seq<string>, tail: seq<string>, recs: seq<T>,
                      stopped: bool, processLine: Option<string -> string>,
                      decode: string -> DecodeResult<T>, stop: Option<T -> bool>)
    requires all == out + LinesRecords(lines + tail, processLine, decode) && NoStopIn(out, stop)
    requires stopped ==> recs == UntilStop(LinesRecords(lines, processLine, decode), stop)
    requires stopped ==> !NoStopIn(LinesRecords(lines, processLine, decode), stop)
    requires !stopped ==> recs == LinesRecords(lines, processLine, decode) && NoStopIn(recs, stop)
    ensures stopped ==> out + recs == UntilStop(all, stop)
    ensures !stopped ==> NoStopIn(out + recs, stop)
    ensures !stopped ==> all == out + recs + LinesRecords(tail, processLine, decode)
  {
    var rest := LinesRecords(tail, processLine, decode);
    LinesRecordsAppend(lines, tail, processLine, decode);
    if stopped {
      FinishStopped(all, out, lines, rest, recs, processLine, decode, stop);
    } else {
      NoStopAppend(out, recs, stop);
      Regroup(out, recs, rest);
    }
  }

  /** The loop ran to the last line without a stopping record. */
  lemma FinishAll<T>(all: seq<T>, out: seq<T>, recs: seq<T>, stop: Option<T -> bool>)
    requires all == out + recs
    requires NoStopIn(out, stop) && NoStopIn(recs, stop)
    ensures out + recs == UntilStop(all, stop)
  {
    NoStopAppend(out, recs, stop);
    UntilStopNone(all, stop);
  }

  /** The line loop over the last lines of the stream, where nothing follows them. */
  method DriveLast<T>(ghost all: seq<T>, out: seq<T>, lines: seq<string>, processLine: Option<string -> string>,
                      decode: string -> DecodeResult<T>, stop: Option<T -> bool>) returns (result: seq<T>)
    requires all == out + LinesRecords(lines, processLine, decode)
    requires NoStopIn(out, stop)
    ensures result == UntilStop(all, stop)
  {
    var recs, stopped := DriveLines(lines, processLine, decode, stop);
    if stopped {
      assert LinesRecords(lines, processLine, decode) + [] == LinesRecords(lines, processLine, decode);
      FinishStopped(all, out, lines, [], recs, processLine, decode, stop);
    } else {
      FinishAll(all, out, recs, stop);
    }
    result := out + recs;
  }

  /** One pass of the corrected read loop: the carried piece and the chunk's text
      are split together; a final chunk's lines are all decoded, any other's but
      the last, which is carried on. `done` is set when the stream ends here. */
  method BufferedChunk<T>(ghost all: seq<T>, out: seq<T>, buffer: string, cs: seq<Chunk>, i: nat,
                          processLine: Option<string -> string>, decode: string -> DecodeResult<T>,
                          stop: Option<T -> bool>)
    returns (next: seq<T>, carried: string, done: bool)
    requires i < |cs| && NoNewline(buffer) && NoStopIn(out, stop)
    requires all == out + LinesRecords(BufferedLines(buffer, cs[i..]), processLine, decode)
    ensures done ==> next == UntilStop(all, stop)
    ensures !done ==> NoNewline(carried) && NoStopIn(next, stop)
    ensures !done ==> all == next + LinesRecords(BufferedLines(carried, cs[i + 1..]), processLine, decode)
  {
    var pieces := Split(buffer + cs[i].data);
    BufferedStep(buffer, cs, i);
    if cs[i].isFinal {
      next := DriveLast(all, out, pieces, processLine, decode, stop);
      return next, [], true;
    }
    var lines := pieces[..|pieces| - 1];
    carried := pieces[|pieces| - 1];
    var recs, stopped := DriveLines(lines, processLine, decode, stop);
    AfterLines(all, out, lines, BufferedLines(carried, cs[i + 1..]), recs, stopped, processLine, decode, stop);
    return out + recs, carried, stopped;
  }

  /** The corrected read loop: the text after the last '\n' of a chunk is kept and
      put in front of the next chunk's text; a final chunk, or the end of the
      chunks, flushes it as the last line. */
  method DriveBuffered<T>(cs: seq<Chunk>, processLine: Option<string -> string>,
                          decode: string -> DecodeResult<T>, stop: Option<T -> bool>) returns (out: seq<T>)
    ensures out == BufferedStream(cs, processLine, decode, stop)
  {
    ghost var all := LinesRecords(BufferedLines([], cs), processLine, decode);
    out := [];
    var buffer: string := [];
    var i := 0;
    assert cs[0..] == cs;
    while i < |cs|
      invariant 0 <= i <= |cs|
      invariant NoNewline(buffer)
      invariant NoStopIn(out, stop)
      invariant all == out + LinesRecords(BufferedLines(buffer, cs[i..]), processLine, decode)
    {
      var done;
      out, buffer, done := BufferedChunk(all, out, buffer, cs, i, processLine, decode, stop);
      if done {
        return;
      }
      i := i + 1;
    }
    assert cs[i..] == [];
    out := DriveLast(all, out, [buffer], processLine, decode, stop);
  }

  /** The corrected loop yields the completed record of the split pull. */
  lemma DriveBufferedPullCompletes(decode: string -> DecodeResult<PullModelResponse>, p1: PullModelResponse,
                                   p2: PullModelResponse)
    requires decode("{\"status\":\"pulling\"}") == Parsed(p1) && !IsComplete(p1)
    requires decode("{\"sta").Malformed? && decode("tus\":\"success\"}").Malformed?
    requires decode("{\"status\":\"success\"}") == Parsed(p2) && IsComplete(p2)
    ensures var cs := [Chunk("{\"status\":\"pulling\"}\n{\"sta", false), Chunk("tus\":\"success\"}\n", true)];
      exists k :: 0 <= k < |BufferedStream(cs, None, decode, Some(IsComplete))|
               && IsComplete(BufferedStream(cs, None, decode, Some(IsComplete))[k])
  {
    PullCompletionLost(decode, p1, p2);
    var cs := [Chunk("{\"status\":\"pulling\"}\n{\"sta", false), Chunk("tus\":\"success\"}\n", true)];
    assert BufferedStream(cs, None, decode, Some(IsComplete))[1] == p2;
  }
}
