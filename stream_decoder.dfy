/** The streaming decoder of `PostStreamAsync<T>`: chunks are read in order, each
    chunk's text is split on '\n' on its own (no text carries over to the next
    chunk), blank lines are dropped, each line is optionally rewritten, lines that
    fail to decode or decode to null are skipped, each record is yielded and then
    checked against the stop predicate, and the first final chunk ends the read. */
module StreamDecoder {
  import opened Common
  import opened Text
  import opened Transport
  import opened Sdk

  /** `processLine?.Invoke(line) ?? line`. */
  function Transform(processLine: Option<string -> string>, line: string): string {
    match processLine
    case None => line
    case Some(f) => f(line)
  }

  /** The records one line yields: none for a blank line, none when the
      (transformed) line does not decode or decodes to null, else the decoded one. */
  function LineRecord<T>(line: string, processLine: Option<string -> string>,
                         decode: string -> DecodeResult<T>): (r: seq<T>)
    ensures |r| <= 1
    ensures r != [] <==> !IsBlank(line) && decode(Transform(processLine, line)).Parsed?
    ensures r != [] ==> r[0] == decode(Transform(processLine, line)).value
  {
    if IsBlank(line) then []
    else match decode(Transform(processLine, line))
      case Parsed(v) => [v]
      case _ => []
  }

  /** The records of a run of lines, in line order. */
  function LinesRecords<T>(lines: seq<string>, processLine: Option<string -> string>,
                           decode: string -> DecodeResult<T>): (r: seq<T>)
    ensures |r| <= |lines|
    decreases |lines|
  {
    if lines == [] then []
    else LineRecord(lines[0], processLine, decode) + LinesRecords(lines[1..], processLine, decode)
  }

  lemma {:induction false} LinesRecordsAppend<T>(a: seq<string>, b: seq<string>,
      processLine: Option<string -> string>, decode: string -> DecodeResult<T>)
    ensures LinesRecords(a + b, processLine, decode)
         == LinesRecords(a, processLine, decode) + LinesRecords(b, processLine, decode)
    decreases |a|
  {
    if a == [] {
      assert a + b == b;
    } else {
      assert (a + b)[0] == a[0];
      assert (a + b)[1..] == a[1..] + b;
      LinesRecordsAppend(a[1..], b, processLine, decode);
      Regroup(LineRecord(a[0], processLine, decode), LinesRecords(a[1..], processLine, decode),
              LinesRecords(b, processLine, decode));
    }
  }

  /** The records of the lines `lines[..j + 1]`: those of `lines[..j]`, then line `j`'s. */
  lemma LinesRecordsStep<T>(lines: seq<string>, j: nat,
      processLine: Option<string -> string>, decode: string -> DecodeResult<T>)
    requires j < |lines|
    ensures LinesRecords(lines[..j + 1], processLine, decode)
         == LinesRecords(lines[..j], processLine, decode) + LineRecord(lines[j], processLine, decode)
  {
    assert lines[..j + 1] == lines[..j] + [lines[j]];
    LinesRecordsAppend(lines[..j], [lines[j]], processLine, decode);
    assert LinesRecords([lines[j]], processLine, decode)
        == LineRecord(lines[j], processLine, decode) + LinesRecords([], processLine, decode);
  }

  /** The records one chunk yields on its own: its text split on '\n', empty
      entries removed, then line by line. */
  function ChunkRecords<T>(c: Chunk, processLine: Option<string -> string>,
                           decode: string -> DecodeResult<T>): seq<T> {
    LinesRecords(SplitRemoveEmpty(c.data), processLine, decode)
  }

  /** The records of a sequence of chunks: each chunk's records, concatenated. */
  function ChunksRecords<T>(cs: seq<Chunk>, processLine: Option<string -> string>,
                            decode: string -> DecodeResult<T>): seq<T>
    decreases |cs|
  {
    if cs == [] then []
    else ChunkRecords(cs[0], processLine, decode) + ChunksRecords(cs[1..], processLine, decode)
  }

  lemma {:induction false} ChunksRecordsAppend<T>(a: seq<Chunk>, b: seq<Chunk>,
      processLine: Option<string -> string>, decode: string -> DecodeResult<T>)
    ensures ChunksRecords(a + b, processLine, decode)
         == ChunksRecords(a, processLine, decode) + ChunksRecords(b, processLine, decode)
    decreases |a|
  {
    if a == [] {
      assert a + b == b;
    } else {
      var head := ChunkRecords(a[0], processLine, decode);
      assert (a + b)[0] == a[0];
      assert (a + b)[1..] == a[1..] + b;
      ChunksRecordsAppend(a[1..], b, processLine, decode);
      Regroup(head, ChunksRecords(a[1..], processLine, decode), ChunksRecords(b, processLine, decode));
    }
  }

  /** `shouldStop?.Invoke(result) == true`. */
  predicate Stops<T>(stop: Option<T -> bool>, v: T) {
    stop.Some? && stop.value(v)
  }

  predicate NoStopIn<T>(rs: seq<T>, stop: Option<T -> bool>) {
    forall k :: 0 <= k < |rs| ==> !Stops(stop, rs[k])
  }

  /** The records up to and including the first one the stop predicate accepts. */
  function UntilStop<T>(rs: seq<T>, stop: Option<T -> bool>): (r: seq<T>)
    ensures |r| <= |rs| && r == rs[..|r|]
    ensures forall k :: 0 <= k < |r| - 1 ==> !Stops(stop, r[k])
    ensures |r| < |rs| ==> r != [] && Stops(stop, r[|r| - 1])
    decreases |rs|
  {
    if rs == [] then []
    else if Stops(stop, rs[0]) then [rs[0]]
    else
      var rest := UntilStop(rs[1..], stop);
      assert [rs[0]] + rest == rs[..|rest| + 1];
      [rs[0]] + rest
  }

  lemma {:induction false} UntilStopNone<T>(rs: seq<T>, stop: Option<T -> bool>)
    requires NoStopIn(rs, stop)
    ensures UntilStop(rs, stop) == rs
    decreases |rs|
  {
    if rs != [] {
      assert !Stops(stop, rs[0]);
      UntilStopNone(rs[1..], stop);
      assert rs == [rs[0]] + rs[1..];
    }
  }

  /** Records before any stopping one are all passed on. */
  lemma {:induction false} UntilStopAppend<T>(a: seq<T>, b: seq<T>, stop: Option<T -> bool>)
    requires NoStopIn(a, stop)
    ensures UntilStop(a + b, stop) == a + UntilStop(b, stop)
    decreases |a|
  {
    if a == [] {
      assert a + b == b;
    } else {
      assert (a + b)[0] == a[0];
      assert (a + b)[1..] == a[1..] + b;
      UntilStopAppend(a[1..], b, stop);
      assert a == [a[0]] + a[1..];
    }
  }

  /** Once a stopping record is present, nothing after it matters. */
  lemma {:induction false} UntilStopIgnoresTail<T>(a: seq<T>, b: seq<T>, stop: Option<T -> bool>)
    requires !NoStopIn(a, stop)
    ensures UntilStop(a + b, stop) == UntilStop(a, stop)
    decreases |a|
  {
    assert a != [];
    assert (a + b)[0] == a[0];
    if !Stops(stop, a[0]) {
      assert (a + b)[1..] == a[1..] + b;
      assert !NoStopIn(a[1..], stop) by {
        var k :| 0 <= k < |a| && Stops(stop, a[k]);
        assert a[1..][k - 1] == a[k];
      }
      UntilStopIgnoresTail(a[1..], b, stop);
    }
  }

  /** What the chunked branch of `PostStreamAsync` yields. */
  function ChunkedStream<T>(cs: seq<Chunk>, processLine: Option<string -> string>,
                            decode: string -> DecodeResult<T>, stop: Option<T -> bool>): seq<T> {
    UntilStop(ChunksRecords(UpToFinal(cs), processLine, decode), stop)
  }

  /** What the non-chunked branch yields: nothing for a null or empty body, else
      the whole body transformed once and decoded once. */
  function WholeStream<T>(text: Option<string>, processLine: Option<string -> string>,
                          decode: string -> DecodeResult<T>): seq<T> {
    if IsNullOrEmpty(text) then []
    else match decode(Transform(processLine, text.value))
      case Parsed(v) => [v]
      case _ => []
  }

  /** What `PostStreamAsync` yields for a response: nothing for a null response or
      a non-2xx status, else the chunked or the whole-body records. */
  function StreamRecords<T>(resp: Option<Response>, processLine: Option<string -> string>,
                            decode: string -> DecodeResult<T>, stop: Option<T -> bool>): seq<T> {
    match resp
    case None => []
    case Some(r) =>
      if !IsSuccess(r.status) then []
      else match r.body
        case Chunked(cs) => ChunkedStream(cs, processLine, decode, stop)
        case Whole(t) => WholeStream(t, processLine, decode)
  }

  /** `PostStreamAsync<T>`: the argument checks, then the records. */
  function PostStreamResult<T>(url: string, data: Option<Payload>, resp: Option<Response>,
                               processLine: Option<string -> string>,
                               decode: string -> DecodeResult<T>, stop: Option<T -> bool>): Result<seq<T>> {
    if url == [] then Err(ArgumentNull("url"))
    else if data.None? then Err(ArgumentNull("data"))
    else Ok(StreamRecords(resp, processLine, decode, stop))
  }

  /** When the first stopping record closes `prefix`, whatever follows is dropped. */
  lemma UntilStopAtLast<T>(prefix: seq<T>, rest: seq<T>, stop: Option<T -> bool>)
    requires prefix != [] && Stops(stop, prefix[|prefix| - 1])
    requires NoStopIn(prefix[..|prefix| - 1], stop)
    ensures UntilStop(prefix + rest, stop) == prefix
  {
    var n := |prefix| - 1;
    assert prefix == prefix[..n] + [prefix[n]];
    assert prefix + rest == prefix[..n] + ([prefix[n]] + rest);
    UntilStopAppend(prefix[..n], [prefix[n]] + rest, stop);
    assert UntilStop([prefix[n]] + rest, stop) == [prefix[n]];
  }

  /** The `foreach (var line in lines)` loop over one chunk's lines. It reports
      whether a yielded record satisfied the stop predicate (`yield break`); the
      records are then those up to that one, else all the lines' records. */
  method DriveLines<T>(lines: seq<string>, processLine: Option<string -> string>,
                       decode: string -> DecodeResult<T>, stop: Option<T -> bool>)
    returns (recs: seq<T>, stopped: bool)
    ensures stopped ==> recs == UntilStop(LinesRecords(lines, processLine, decode), stop)
    ensures stopped ==> recs != [] && Stops(stop, recs[|recs| - 1])
    ensures stopped ==> !NoStopIn(LinesRecords(lines, processLine, decode), stop)
    ensures !stopped ==> recs == LinesRecords(lines, processLine, decode) && NoStopIn(recs, stop)
  {
    recs := [];
    var j := 0;
    while j < |lines|
      invariant 0 <= j <= |lines|
      invariant recs == LinesRecords(lines[..j], processLine, decode)
      invariant NoStopIn(recs, stop)
    {
      var rec := DecodeLine(lines[j], processLine, decode);
      LineAdded(lines, j, recs, rec, processLine, decode, stop);
      recs := recs + rec;
      j := j + 1;
      if rec != [] && Stops(stop, rec[0]) {
        StopAtLine(lines, j, recs, processLine, decode, stop);
        return recs, true;
      }
    }
    assert lines[..j] == lines;
    return recs, false;
  }

  /** The body of the loop over lines: a blank line is skipped, any other is
      transformed, and a line that fails to decode, or decodes to null, is
      skipped; a decoded record is yielded. */
  method DecodeLine<T>(line: string, processLine: Option<string -> string>, decode: string -> DecodeResult<T>)
    returns (rec: seq<T>)
    ensures rec == LineRecord(line, processLine, decode)
  {
    if IsBlank(line) {
      return [];
    }
    var processedLine := Transform(processLine, line);
    var result := decode(processedLine);
    if !result.Parsed? {
      return [];
    }
    return [result.value];
  }

  /** The records of one more line extend the records of the lines before it. */
  lemma LineAdded<T>(lines: seq<string>, j: nat, before: seq<T>, rec: seq<T>,
                     processLine: Option<string -> string>, decode: string -> DecodeResult<T>,
                     stop: Option<T -> bool>)
    requires j < |lines| && before == LinesRecords(lines[..j], processLine, decode) && NoStopIn(before, stop)
    requires rec == LineRecord(lines[j], processLine, decode)
    ensures before + rec == LinesRecords(lines[..j + 1], processLine, decode)
    ensures (before + rec)[..|before|] == before
    ensures rec == [] || !Stops(stop, rec[0]) ==> NoStopIn(before + rec, stop)
  {
    LinesRecordsStep(lines, j, processLine, decode);
    assert (before + rec)[..|before|] == before;
    if rec == [] {
      assert before + rec == before;
    } else if !Stops(stop, rec[0]) {
      NoStopAppend(before, rec, stop);
    }
  }

  /** A stopping record that ends the records of `lines[..j]`, with none before
      it, ends the stream of all the lines. */
  lemma StopAtLine<T>(lines: seq<string>, j: nat, recs: seq<T>, processLine: Option<string -> string>,
                      decode: string -> DecodeResult<T>, stop: Option<T -> bool>)
    requires 0 < j <= |lines| && recs == LinesRecords(lines[..j], processLine, decode)
    requires recs != [] && Stops(stop, recs[|recs| - 1]) && NoStopIn(recs[..|recs| - 1], stop)
    ensures recs == UntilStop(LinesRecords(lines, processLine, decode), stop)
    ensures !NoStopIn(LinesRecords(lines, processLine, decode), stop)
  {
    assert lines == lines[..j] + lines[j..];
    LinesRecordsAppend(lines[..j], lines[j..], processLine, decode);
    UntilStopAtLast(recs, LinesRecords(lines[j..], processLine, decode), stop);
    assert LinesRecords(lines, processLine, decode)[|recs| - 1] == recs[|recs| - 1];
  }

  /** A chunk with no data yields no record. */
  lemma EmptyChunkRecords<T>(c: Chunk, processLine: Option<string -> string>,
                             decode: string -> DecodeResult<T>)
    requires c.data == []
    ensures ChunkRecords(c, processLine, decode) == []
  {
    assert Split(c.data) == [[]];
  }

  /** Where chunk `i` holds the first stopping record, the stream is the records
      before that chunk and that chunk's records up to the stopping one. */
  lemma StopInChunk<T>(cs: seq<Chunk>, i: nat, processLine: Option<string -> string>,
                       decode: string -> DecodeResult<T>, stop: Option<T -> bool>)
    requires i < |cs| && NoFinal(cs[..i])
    requires NoStopIn(ChunksRecords(cs[..i], processLine, decode), stop)
    requires !NoStopIn(ChunkRecords(cs[i], processLine, decode), stop)
    ensures ChunkedStream(cs, processLine, decode, stop)
         == ChunksRecords(cs[..i], processLine, decode)
          + UntilStop(ChunkRecords(cs[i], processLine, decode), stop)
  {
    UpToFinalFrom(cs, i);
    var tail := UpToFinal(cs[i..]);
    UpToFinalHead(cs, i);
    var pre := ChunksRecords(cs[..i], processLine, decode);
    var mid := ChunkRecords(cs[i], processLine, decode);
    var post := ChunksRecords(tail[1..], processLine, decode);
    ChunksRecordsAppend(cs[..i], tail, processLine, decode);
    ChunksRecordsCons(tail, processLine, decode);
    UntilStopAppend(pre, mid + post, stop);
    UntilStopIgnoresTail(mid, post, stop);
  }

  lemma ChunksRecordsCons<T>(cs: seq<Chunk>, processLine: Option<string -> string>,
                             decode: string -> DecodeResult<T>)
    requires cs != []
    ensures ChunksRecords(cs, processLine, decode)
         == ChunkRecords(cs[0], processLine, decode) + ChunksRecords(cs[1..], processLine, decode)
  {
  }

  /** The consumed chunks from a non-final position on start with that chunk. */
  lemma UpToFinalHead(cs: seq<Chunk>, i: nat)
    requires i < |cs|
    ensures UpToFinal(cs[i..]) != [] && UpToFinal(cs[i..])[0] == cs[i]
  {
    assert cs[i..][0] == cs[i];
  }

  /** The records of `cs[..i + 1]`: those of `cs[..i]`, then chunk `i`'s. */
  lemma ChunksRecordsStep<T>(cs: seq<Chunk>, i: nat, processLine: Option<string -> string>,
                             decode: string -> DecodeResult<T>)
    requires i < |cs|
    ensures ChunksRecords(cs[..i + 1], processLine, decode)
         == ChunksRecords(cs[..i], processLine, decode) + ChunkRecords(cs[i], processLine, decode)
  {
    assert cs[..i + 1] == cs[..i] + [cs[i]];
    ChunksRecordsAppend(cs[..i], [cs[i]], processLine, decode);
    assert ChunksRecords([cs[i]], processLine, decode)
        == ChunkRecords(cs[i], processLine, decode) + ChunksRecords([], processLine, decode);
  }

  /** The body of the read loop for one chunk: nothing for a chunk without data,
      else the line loop over its text split on '\n' without empty entries. */
  method DriveChunk<T>(chunk: Chunk, processLine: Option<string -> string>,
                       decode: string -> DecodeResult<T>, stop: Option<T -> bool>)
    returns (recs: seq<T>, stopped: bool)
    ensures stopped ==> recs == UntilStop(ChunkRecords(chunk, processLine, decode), stop)
    ensures stopped ==> recs != [] && Stops(stop, recs[|recs| - 1])
    ensures stopped ==> !NoStopIn(ChunkRecords(chunk, processLine, decode), stop)
    ensures !stopped ==> recs == ChunkRecords(chunk, processLine, decode) && NoStopIn(recs, stop)
  {
    if |chunk.data| > 0 {
      var lines := SplitRemoveEmpty(chunk.data);
      recs, stopped := DriveLines(lines, processLine, decode, stop);
    } else {
      EmptyChunkRecords(chunk, processLine, decode);
      recs, stopped := [], false;
    }
  }

  /** The chunked read loop of `PostStreamAsync` (and of `PullModel`, whose copy of
      it has no line transform and stops on a completed pull). */
  method DriveChunks<T>(cs: seq<Chunk>, processLine: Option<string -> string>,
                        decode: string -> DecodeResult<T>, stop: Option<T -> bool>) returns (out: seq<T>)
    ensures out == ChunkedStream(cs, processLine, decode, stop)
  {
    out := [];
    var i := 0;
    while i < |cs|
      invariant 0 <= i <= |cs|
      invariant NoFinal(cs[..i])
      invariant out == ChunksRecords(cs[..i], processLine, decode)
      invariant NoStopIn(out, stop)
    {
      var chunk := cs[i];
      var recs, stopped := DriveChunk(chunk, processLine, decode, stop);
      AfterChunk(cs, i, out, recs, stopped, processLine, decode, stop);
      if stopped {
        return out + recs;
      }
      out := out + recs;
      if chunk.isFinal {
        return;
      }
      i := i + 1;
    }
    assert cs[..i] == cs;
    ReadUpTo(cs, i, processLine, decode, stop, out);
  }

  /** What the chunk loop has read once chunk `i` has been decoded: the stream when
      a stopping record or a final chunk ends the loop, else the records of the
      chunks up to `i`, with no stopping record and no final chunk among them. */
  lemma AfterChunk<T>(cs: seq<Chunk>, i: nat, out: seq<T>, recs: seq<T>, stopped: bool,
                      processLine: Option<string -> string>, decode: string -> DecodeResult<T>,
                      stop: Option<T -> bool>)
    requires i < |cs| && NoFinal(cs[..i])
    requires out == ChunksRecords(cs[..i], processLine, decode) && NoStopIn(out, stop)
    requires stopped ==> && recs == UntilStop(ChunkRecords(cs[i], processLine, decode), stop)
                         && !NoStopIn(ChunkRecords(cs[i], processLine, decode), stop)
    requires !stopped ==> recs == ChunkRecords(cs[i], processLine, decode) && NoStopIn(recs, stop)
    ensures stopped || cs[i].isFinal ==> out + recs == ChunkedStream(cs, processLine, decode, stop)
    ensures !stopped ==> && out + recs == ChunksRecords(cs[..i + 1], processLine, decode)
                         && NoStopIn(out + recs, stop)
    ensures !stopped && !cs[i].isFinal ==> NoFinal(cs[..i + 1])
  {
    if stopped {
      StopInChunk(cs, i, processLine, decode, stop);
    } else {
      ChunksRecordsStep(cs, i, processLine, decode);
      NoStopAppend(out, recs, stop);
      if cs[i].isFinal {
        ReadUpTo(cs, i + 1, processLine, decode, stop, out + recs);
      } else {
        NoFinalStep(cs, i);
      }
    }
  }

  lemma NoFinalStep(cs: seq<Chunk>, i: nat)
    requires i < |cs| && NoFinal(cs[..i]) && !cs[i].isFinal
    ensures NoFinal(cs[..i + 1])
  {
    assert cs[..i + 1] == cs[..i] + [cs[i]];
  }

  /** When the loop leaves after chunk `n - 1` (it was final, or the chunks ran out)
      without a stopping record, what it yielded is the stream. */
  lemma ReadUpTo<T>(cs: seq<Chunk>, n: nat, processLine: Option<string -> string>,
                    decode: string -> DecodeResult<T>, stop: Option<T -> bool>, out: seq<T>)
    requires || (0 < n <= |cs| && NoFinal(cs[..n - 1]) && cs[n - 1].isFinal)
             || (n == |cs| && NoFinal(cs))
    requires out == ChunksRecords(cs[..n], processLine, decode) && NoStopIn(out, stop)
    ensures out == ChunkedStream(cs, processLine, decode, stop)
  {
    if n == |cs| && NoFinal(cs) {
      UpToFinalNone(cs);
      assert cs[..n] == cs;
    } else {
      UpToFinalAt(cs, n);
    }
    assert UpToFinal(cs) == cs[..n];
    UntilStopNone(out, stop);
  }

  lemma NoStopAppend<T>(a: seq<T>, b: seq<T>, stop: Option<T -> bool>)
    requires NoStopIn(a, stop) && NoStopIn(b, stop)
    ensures NoStopIn(a + b, stop)
  {
    forall k | 0 <= k < |a + b| ensures !Stops(stop, (a + b)[k]) {
      if k >= |a| { assert (a + b)[k] == b[k - |a|]; }
    }
  }

  /** `PostStreamAsync<T>`, with the response the transport returned as input. */
  method PostStream<T>(url: string, data: Option<Payload>, resp: Option<Response>,
                       processLine: Option<string -> string>,
                       decode: string -> DecodeResult<T>, stop: Option<T -> bool>) returns (r: Result<seq<T>>)
    ensures r == PostStreamResult(url, data, resp, processLine, decode, stop)
  {
    if url == [] {
      return Err(ArgumentNull("url"));
    }
    if data.None? {
      return Err(ArgumentNull("data"));
    }
    if resp.None? || !IsSuccess(resp.value.status) {
      // "No response" or "Non-success": a warning is logged and nothing is yielded.
      return Ok([]);
    }
    match resp.value.body {
      case Chunked(cs) =>
        var out := DriveChunks(cs, processLine, decode, stop);
        r := Ok(out);
      case Whole(responseData) =>
        var out: seq<T> := [];
        if !IsNullOrEmpty(responseData) {
          var processedData := Transform(processLine, responseData.value);
          var result := decode(processedData);
          if result.Parsed? {
            out := [result.value];
          }
        }
        r := Ok(out);
    }
  }

  // ----- Properties of the decoder -----

  /** A null response or a non-2xx status yields no record, whatever the body holds. */
  lemma NonSuccessYieldsNothing<T>(status: int, body: Body, processLine: Option<string -> string>,
                                   decode: string -> DecodeResult<T>, stop: Option<T -> bool>)
    ensures !IsSuccess(status) ==> StreamRecords(Some(Response(status, body)), processLine, decode, stop) == []
    ensures StreamRecords(None, processLine, decode, stop) == []
  {
  }

  /** A line that does not decode (or decodes to null) is skipped without ending the
      stream: the lines around it yield exactly what they yield without it. */
  lemma MalformedLineSkipped<T>(before: seq<string>, bad: string, after: seq<string>,
                                processLine: Option<string -> string>, decode: string -> DecodeResult<T>)
    requires !decode(Transform(processLine, bad)).Parsed?
    ensures LinesRecords(before + [bad] + after, processLine, decode)
         == LinesRecords(before, processLine, decode) + LinesRecords(after, processLine, decode)
  {
    LinesRecordsAppend(before + [bad], after, processLine, decode);
    LinesRecordsAppend(before, [bad], processLine, decode);
    assert LinesRecords([bad], processLine, decode) == [] by {
      assert [bad][0] == bad && [bad][1..] == [];
    }
    assert LinesRecords(before, processLine, decode) + [] == LinesRecords(before, processLine, decode);
  }

  /** Within one run of lines, the records are `decode(processLine(l))` for the
      non-blank lines `l` that decode, in order: when every line qualifies there is
      one record per line. */
  lemma {:induction false} EveryDecodableLineYields<T>(lines: seq<string>, processLine: Option<string -> string>,
                                                       decode: string -> DecodeResult<T>)
    requires forall k :: 0 <= k < |lines| ==>
      !IsBlank(lines[k]) && decode(Transform(processLine, lines[k])).Parsed?
    ensures |LinesRecords(lines, processLine, decode)| == |lines|
    ensures forall k :: 0 <= k < |lines| ==>
      LinesRecords(lines, processLine, decode)[k] == decode(Transform(processLine, lines[k])).value
    decreases |lines|
  {
    if lines != [] {
      EveryDecodableLineYields(lines[1..], processLine, decode);
      var r := LinesRecords(lines, processLine, decode);
      assert r == LineRecord(lines[0], processLine, decode) + LinesRecords(lines[1..], processLine, decode);
      forall k | 0 <= k < |lines|
        ensures r[k] == decode(Transform(processLine, lines[k])).value
      {
        if k > 0 { assert lines[1..][k - 1] == lines[k]; }
      }
    }
  }

  /** Every record comes from some non-blank line that decoded to it. */
  lemma {:induction false} RecordsComeFromLines<T>(lines: seq<string>, processLine: Option<string -> string>,
                                                   decode: string -> DecodeResult<T>, k: nat)
    requires k < |LinesRecords(lines, processLine, decode)|
    ensures exists l :: l in lines && !IsBlank(l)
                     && decode(Transform(processLine, l)) == Parsed(LinesRecords(lines, processLine, decode)[k])
    decreases |lines|
  {
    var first := LineRecord(lines[0], processLine, decode);
    var r := LinesRecords(lines, processLine, decode);
    assert r == first + LinesRecords(lines[1..], processLine, decode);
    if k < |first| {
      assert lines[0] in lines;
    } else {
      RecordsComeFromLines(lines[1..], processLine, decode, k - |first|);
      var l :| l in lines[1..] && !IsBlank(l)
            && decode(Transform(processLine, l)) == Parsed(LinesRecords(lines[1..], processLine, decode)[k - |first|]);
      assert l in lines;
    }
  }

  /** No state carries across chunks: before the first final chunk, the records of
      a sequence of chunks are the records of each chunk taken on its own, concatenated. */
  lemma ChunksDecodeIndependently<T>(a: seq<Chunk>, b: seq<Chunk>, processLine: Option<string -> string>,
                                     decode: string -> DecodeResult<T>)
    requires NoFinal(a)
    ensures ChunksRecords(UpToFinal(a + b), processLine, decode)
         == ChunksRecords(a, processLine, decode) + ChunksRecords(UpToFinal(b), processLine, decode)
  {
    UpToFinalAppend(a, b);
    ChunksRecordsAppend(a, UpToFinal(b), processLine, decode);
  }

  /** The chunked output is a prefix of all the records; every yielded record but
      the last fails the stop predicate; and when records are left out, the last
      yielded one is the first that satisfies it. */
  lemma ChunkedStreamStopsAtFirstStop<T>(cs: seq<Chunk>, processLine: Option<string -> string>,
                                         decode: string -> DecodeResult<T>, stop: Option<T -> bool>)
    ensures var all := ChunksRecords(UpToFinal(cs), processLine, decode);
            var out := ChunkedStream(cs, processLine, decode, stop);
      && out == all[..|out|]
      && (out != [] ==> NoStopIn(out[..|out| - 1], stop))
      && (|out| < |all| ==> Stops(stop, out[|out| - 1]))
      && (NoStopIn(all, stop) ==> out == all)
  {
    var all := ChunksRecords(UpToFinal(cs), processLine, decode);
    var out := UntilStop(all, stop);
    assert out == ChunkedStream(cs, processLine, decode, stop);
    if out != [] {
      var init := out[..|out| - 1];
      forall k | 0 <= k < |init| ensures !Stops(stop, init[k]) {
        assert init[k] == out[k];
      }
    }
    if NoStopIn(all, stop) {
      UntilStopNone(all, stop);
    }
  }

  /** No chunk after the first final one is consumed. */
  lemma LaterChunksAfterFinalIgnored<T>(a: seq<Chunk>, b: seq<Chunk>, processLine: Option<string -> string>,
                                        decode: string -> DecodeResult<T>, stop: Option<T -> bool>)
    requires !NoFinal(a)
    ensures ChunkedStream(a + b, processLine, decode, stop) == ChunkedStream(a, processLine, decode, stop)
  {
    UpToFinalIgnoresTail(a, b);
  }

  /** Once a record satisfying the stop predicate has been seen, later chunks make
      no difference, even when no final chunk has arrived. */
  lemma LaterChunksAfterStopIgnored<T>(a: seq<Chunk>, b: seq<Chunk>, processLine: Option<string -> string>,
                                       decode: string -> DecodeResult<T>, stop: Option<T -> bool>)
    requires !NoStopIn(ChunksRecords(UpToFinal(a), processLine, decode), stop)
    ensures ChunkedStream(a + b, processLine, decode, stop) == ChunkedStream(a, processLine, decode, stop)
  {
    if NoFinal(a) {
      UpToFinalFrom(a, |a|);
      assert a[..|a|] == a && a[|a|..] == [];
      ChunksDecodeIndependently(a, b, processLine, decode);
      UntilStopIgnoresTail(ChunksRecords(a, processLine, decode),
                           ChunksRecords(UpToFinal(b), processLine, decode), stop);
    } else {
      UpToFinalIgnoresTail(a, b);
    }
  }

  /** A non-chunked body yields at most one record: exactly one when it is
      non-empty and its transformed text decodes, and then it is that decoded value. */
  lemma WholeBodyAtMostOneRecord<T>(text: Option<string>, processLine: Option<string -> string>,
                                    decode: string -> DecodeResult<T>)
    ensures |WholeStream(text, processLine, decode)| <= 1
    ensures |WholeStream(text, processLine, decode)| == 1 <==>
      !IsNullOrEmpty(text) && decode(Transform(processLine, text.value)).Parsed?
    ensures |WholeStream(text, processLine, decode)| == 1 ==>
      WholeStream(text, processLine, decode)[0] == decode(Transform(processLine, text.value)).value
  {
  }
}
