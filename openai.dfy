/** `OpenAIMethods`: the request guards, the embeddings calls and the two streaming
    methods, whose server-sent lines carry a `data: ` prefix that is stripped
    before decoding. */
module OpenAI {
  import opened Common
  import opened Text
  import opened Transport
  import opened Sdk
  import opened StreamDecoder

  const DataPrefix: string := "data: "

  /** The `processLine` both streaming methods pass: drop a leading `data: `. */
  function StripDataPrefix(line: string): (r: string)
    ensures StartsWith(line, DataPrefix) ==> r == line[6..]
    ensures !StartsWith(line, DataPrefix) ==> r == line
  {
    if StartsWith(line, DataPrefix) then line[6..] else line
  }

  /** The transformed line is a suffix of the line, exactly 6 characters shorter
      when the prefix was there and the line itself otherwise. */
  lemma StripIsSuffix(line: string)
    ensures var r := StripDataPrefix(line);
      && |r| <= |line| && r == line[|line| - |r|..]
      && (|line| - |r| == 6 <==> StartsWith(line, DataPrefix))
      && (|line| - |r| == 0 <==> !StartsWith(line, DataPrefix))
  {
  }

  /** Stripping undoes prefixing, for every payload. */
  lemma StripPrefixed(p: string)
    ensures StripDataPrefix(DataPrefix + p) == p
  {
    assert (DataPrefix + p)[..6] == DataPrefix;
    assert (DataPrefix + p)[6..] == p;
  }

  /** Only one prefix is removed: the transformer is not idempotent. */
  lemma StripNotIdempotent()
    ensures StripDataPrefix("data: data: x") == "data: x"
    ensures StripDataPrefix(StripDataPrefix("data: data: x")) == "x"
  {
    assert "data: data: x"[..6] == DataPrefix;
    assert "data: x"[..6] == DataPrefix;
  }

  /** `StripDataPrefix` as the `processLine` function value. */
  const StripLine: string -> string := StripDataPrefix

  /** A streaming method's result: a null request throws before anything else,
      otherwise the stream of `PostStreamAsync` with the prefix stripper and no
      stop predicate. */
  function StreamResult<T>(request: CompletionRequest?, endpoint: string, path: string,
                           resp: Option<Response>, decode: string -> DecodeResult<T>): Result<seq<T>>
  {
    if request == null then Err(ArgumentNull("request"))
    else PostStreamResult(endpoint + path, Some(OtherRequest(path)), resp, Some(StripLine), decode, None)
  }

  /** Forwards every streamed record unchanged and in order; `request.Stream` is
      set first. Both `GenerateCompletionStreamAsync` (`/v1/completions`) and
      `GenerateChatCompletionStreamAsync` (`/v1/chat/completions`) are this
      method with their path. */
  method ForwardStream<T>(request: CompletionRequest?, endpoint: string, path: string,
                          resp: Option<Response>, decode: string -> DecodeResult<T>)
    returns (r: Result<seq<T>>)
    modifies request
    ensures request != null ==> request.Stream
    ensures r == StreamResult(request, endpoint, path, resp, decode)
  {
    if request == null {
      return Err(ArgumentNull("request"));
    }
    request.Stream := true;
    var url := endpoint + path;
    var streamed := PostStream(url, Some(OtherRequest(path)), resp, Some(StripLine), decode, None);
    if streamed.Err? {
      return Err(streamed.error);
    }
    var out: seq<T> := [];
    var i := 0;
    while i < |streamed.value|
      invariant 0 <= i <= |streamed.value|
      invariant out == streamed.value[..i]
      invariant request.Stream
    {
      out := out + [streamed.value[i]];
      i := i + 1;
    }
    assert streamed.value[..i] == streamed.value;
    r := Ok(out);
  }

  method GenerateCompletionStreamAsync<T>(request: CompletionRequest?, endpoint: string,
                                          resp: Option<Response>, decode: string -> DecodeResult<T>)
    returns (r: Result<seq<T>>)
    modifies request
    ensures request != null ==> request.Stream
    ensures r == StreamResult(request, endpoint, "/v1/completions", resp, decode)
  {
    r := ForwardStream(request, endpoint, "/v1/completions", resp, decode);
  }

  method GenerateChatCompletionStreamAsync<T>(request: CompletionRequest?, endpoint: string,
                                              resp: Option<Response>, decode: string -> DecodeResult<T>)
    returns (r: Result<seq<T>>)
    modifies request
    ensures request != null ==> request.Stream
    ensures r == StreamResult(request, endpoint, "/v1/chat/completions", resp, decode)
  {
    r := ForwardStream(request, endpoint, "/v1/chat/completions", resp, decode);
  }

  /** A null request is refused with `ArgumentNullException("request")`, whatever
      the server would have sent. */
  lemma StreamNullRequest<T>(endpoint: string, path: string, resp: Option<Response>,
                             decode: string -> DecodeResult<T>)
    ensures StreamResult(null, endpoint, path, resp, decode) == Err(ArgumentNull("request"))
  {
  }

  /** Each line of a streamed chunk is decoded without its `data: ` prefix: a line
      that is `data: ` followed by a payload yields what the payload decodes to. */
  lemma StreamDecodesPayload<T>(payload: string, decode: string -> DecodeResult<T>)
    requires decode(payload).Parsed?
    ensures LineRecord(DataPrefix + payload, Some(StripLine), decode) == [decode(payload).value]
  {
    StripPrefixed(payload);
    assert !IsBlank(DataPrefix + payload) by {
      assert (DataPrefix + payload)[0] == 'd';
    }
  }

  /** A server-sent stream in one final chunk: a record line, a blank line and the
      `data: [DONE]` terminator, which does not decode and is skipped. */
  lemma SseChunk<T>(payload: string, decode: string -> DecodeResult<T>, v: T)
    requires NoNewline(payload)
    requires decode(payload) == Parsed(v)
    requires decode("[DONE]").Malformed?
    ensures ChunkedStream([Chunk(DataPrefix + payload + "\n\n" + DataPrefix + "[DONE]\n", true)],
                          Some(StripLine), decode, None)
         == [v]
  {
    var l1 := DataPrefix + payload;
    var l2 := DataPrefix + "[DONE]";
    var c := Chunk(DataPrefix + payload + "\n\n" + DataPrefix + "[DONE]\n", true);
    SseLines(payload);
    StreamDecodesPayload(payload, decode);
    DoneSkipped(decode);
    assert LinesRecords([l1, l2], Some(StripLine), decode)
        == LineRecord(l1, Some(StripLine), decode) + LinesRecords([l2], Some(StripLine), decode);
    assert ChunksRecords([c], Some(StripLine), decode)
        == ChunkRecords(c, Some(StripLine), decode) + ChunksRecords([], Some(StripLine), decode);
    var none: Option<T -> bool> := None;
    UntilStopNone([v], none);
  }

  /** The terminator line yields nothing when `[DONE]` does not decode. */
  lemma DoneSkipped<T>(decode: string -> DecodeResult<T>)
    requires decode("[DONE]").Malformed?
    ensures LinesRecords([DataPrefix + "[DONE]"], Some(StripLine), decode) == []
  {
    StripPrefixed("[DONE]");
  }

  /** The lines of that chunk, once the empty entries are removed. */
  lemma SseLines(payload: string)
    requires NoNewline(payload)
    ensures SplitRemoveEmpty(DataPrefix + payload + "\n\n" + DataPrefix + "[DONE]\n")
         == [DataPrefix + payload, DataPrefix + "[DONE]"]
  {
    var l1 := DataPrefix + payload;
    var l2 := DataPrefix + "[DONE]";
    PrefixNoNewline(payload);
    PrefixNoNewline("[DONE]");
    SplitThreeLines(l1, l2);
    assert DataPrefix + payload + "\n\n" + DataPrefix + "[DONE]\n" == l1 + "\n" + "\n" + l2 + "\n";
    assert l1 != [] && l2 != [];
    assert RemoveEmpty([l1, [], l2, []]) == [l1] + RemoveEmpty([[], l2, []]);
    assert RemoveEmpty([[], l2, []]) == RemoveEmpty([l2, []]);
    assert RemoveEmpty([l2, []]) == [l2] + RemoveEmpty([[]]);
  }

  lemma PrefixNoNewline(p: string)
    requires NoNewline(p)
    ensures NoNewline(DataPrefix + p)
  {
    forall i | 0 <= i < |DataPrefix + p| ensures (DataPrefix + p)[i] != '\n' {
      if i >= 6 { assert (DataPrefix + p)[i] == p[i - 6]; }
    }
  }

  /** The chunk `data: {"text":"hi"}`, a blank line and `data: [DONE]` yields the one record. */
  lemma SampleSseChunk<T>(decode: string -> DecodeResult<T>, v: T)
    requires decode("{\"text\":\"hi\"}") == Parsed(v)
    requires decode("[DONE]").Malformed?
    ensures ChunkedStream([Chunk(DataPrefix + "{\"text\":\"hi\"}" + "\n\n" + DataPrefix + "[DONE]\n", true)],
                          Some(StripLine), decode, None)
         == [v]
  {
    var p := "{\"text\":\"hi\"}";
    assert NoNewline(p);
    SseChunk(p, decode, v);
  }

  /** `Split` of two '\n'-free lines with an empty line between them and a trailing '\n'. */
  lemma SplitThreeLines(l1: string, l2: string)
    requires NoNewline(l1) && NoNewline(l2)
    ensures Split(l1 + "\n" + "\n" + l2 + "\n") == [l1, [], l2, []]
  {
    var ps := [l1, [], l2, []];
    assert JoinLines(ps) == l1 + "\n" + JoinLines([[], l2, []]);
    assert JoinLines([[], l2, []]) == [] + "\n" + JoinLines([l2, []]);
    assert JoinLines([l2, []]) == l2 + "\n" + JoinLines([[]]);
    assert JoinLines(ps) == l1 + "\n" + "\n" + l2 + "\n";
    JoinSplit(ps);
  }

  // ----- Embeddings and the other request methods -----

  /** `GenerateEmbeddingsAsync`: the null guard, then `PostAsync` on `/v1/embeddings`. */
  function GenerateEmbeddingsAsync<R>(endpoint: string, request: Option<EmbeddingsRequest>,
                                      resp: Option<Response>, decode: string -> DecodeResult<R>)
    : (r: Result<Option<R>>)
    ensures request.None? ==> r == Err(ArgumentNull("request"))
    ensures request.Some? ==> r == TypedResult(resp, decode)
  {
    if request.None? then Err(ArgumentNull("request"))
    else PostAsync(endpoint + "/v1/embeddings", Some(OpenAIEmbeddings(request.value)), resp, decode)
  }

  /** The body `GenerateMultipleEmbeddingsAsync` serialises. */
  function MultipleEmbeddingsBody(req: EmbeddingsRequest): (b: WireBody)
    ensures b.ModelAndInput? <==> HasMultipleInputs(req)
    ensures b.ModelAndInput? ==> b.model == req.model && b.input == req.inputs.value
    ensures b.Serialized? ==> b.payload == OpenAIEmbeddings(req)
  {
    EmbeddingsBody(req, OpenAIEmbeddings(req))
  }

  /** `GenerateMultipleEmbeddingsAsync`: the null guard, then its own copy of the
      `ReadResponse` and 2xx-and-non-empty rule. */
  function GenerateMultipleEmbeddingsAsync<R>(request: Option<EmbeddingsRequest>, resp: Option<Response>,
                                              decode: string -> DecodeResult<R>): (r: Result<Option<R>>)
    ensures request.None? ==> r == Err(ArgumentNull("request"))
    ensures request.Some? && (resp.None? || !IsSuccess(resp.value.status) || IsNullOrEmpty(ResponseText(resp))) ==>
      r == Ok(None)
    ensures request.Some? && resp.Some? && IsSuccess(resp.value.status) && !IsNullOrEmpty(ResponseText(resp)) ==>
      r == Deserialized(decode(ResponseText(resp).value))
  {
    if request.None? then Err(ArgumentNull("request"))
    else
      match resp
      case None => Ok(None)
      case Some(response) =>
        var responseData := ResponseText(resp);
        if IsSuccess(response.status) then
          if !IsNullOrEmpty(responseData) then Deserialized(decode(responseData.value))
          else Ok(None)
        else Ok(None)
  }

  /** The two OpenAI embeddings calls are interchangeable: `PostAsync` makes the
      same `{ model, input }`-or-request body choice for an OpenAI embeddings
      request, and both classify the response alike. */
  lemma EmbeddingsCallsAgree<R>(endpoint: string, req: EmbeddingsRequest, resp: Option<Response>,
                                decode: string -> DecodeResult<R>)
    ensures PostBody(OpenAIEmbeddings(req)) == MultipleEmbeddingsBody(req)
    ensures GenerateEmbeddingsAsync(endpoint, Some(req), resp, decode)
         == GenerateMultipleEmbeddingsAsync(Some(req), resp, decode)
  {
  }

  /** `GenerateCompletionAsync` and `GenerateChatCompletionAsync`: the null guard,
      then `PostAsync` on their path. */
  function GeneratePosted<R>(endpoint: string, path: string, request: Option<Payload>,
                             resp: Option<Response>, decode: string -> DecodeResult<R>): (r: Result<Option<R>>)
    ensures request.None? ==> r == Err(ArgumentNull("request"))
    ensures request.Some? && path != [] ==> r == TypedResult(resp, decode)
  {
    if request.None? then Err(ArgumentNull("request"))
    else PostAsync(endpoint + path, request, resp, decode)
  }
}
