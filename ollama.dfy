/** `OllamaMethods`: the model pull with its own copy of the chunk decoder, the
    local-model listing, the embeddings helpers and the two streaming methods. */
module Ollama {
  import opened Common
  import opened Text
  import opened Transport
  import opened Sdk
  import opened StreamDecoder
  import opened PullProgress

  // ----- PullModel -----

  /** The records `PullModel` yields: for a 2xx chunked body, the chunk decoder
      with no line transform, stopping right after a completed record; for a 2xx
      whole body, that body decoded once; for any other status, the body that
      `ReadResponse` gathers (chunked or not), decoded once; nothing for a null
      response. */
  function PullModelRecords(resp: Option<Response>, decode: string -> DecodeResult<PullModelResponse>)
    : seq<PullModelResponse>
  {
    match resp
    case None => []
    case Some(r) =>
      if IsSuccess(r.status) then
        match r.body
        case Chunked(cs) => ChunkedStream(cs, None, decode, Some(IsComplete))
        case Whole(t) => WholeStream(t, None, decode)
      else WholeStream(ResponseText(resp), None, decode)
  }

  /** `PullModel`, with the response the transport returned as input. */
  method PullModel(resp: Option<Response>, decode: string -> DecodeResult<PullModelResponse>)
    returns (out: seq<PullModelResponse>)
    ensures out == PullModelRecords(resp, decode)
  {
    if resp.None? {
      // "No response": a warning is logged.
      return [];
    }
    var responseData: Option<string>;
    if IsSuccess(resp.value.status) {
      match resp.value.body {
        case Chunked(cs) =>
          out := DriveChunks(cs, None, decode, Some(IsComplete));
          return;
        case Whole(t) =>
          responseData := t;
      }
    } else {
      responseData := ReadResponse(resp);
    }
    out := [];
    if !IsNullOrEmpty(responseData) {
      var result := decode(responseData.value);
      if result.Parsed? {
        out := [result.value];
      }
    }
  }

  /** The pull ends at the first completed record: no record before the last one
      is complete, the records are a prefix of everything the chunks decode to, and
      when some are left out the last one yielded is complete. */
  lemma PullModelEndsAtComplete(cs: seq<Chunk>, status: int, decode: string -> DecodeResult<PullModelResponse>)
    requires IsSuccess(status)
    ensures var out := PullModelRecords(Some(Response(status, Chunked(cs))), decode);
            var all := ChunksRecords(UpToFinal(cs), None, decode);
      && out == all[..|out|]
      && (forall k :: 0 <= k < |out| - 1 ==> !IsComplete(out[k]))
      && (|out| < |all| ==> IsComplete(out[|out| - 1]))
  {
    ChunkedStreamStopsAtFirstStop(cs, None, decode, Some(IsComplete));
    var out := ChunkedStream(cs, None, decode, Some(IsComplete));
    if out != [] {
      forall k | 0 <= k < |out| - 1 ensures !IsComplete(out[k]) {
        assert out[..|out| - 1][k] == out[k];
      }
    }
  }

  /** Once a completed record has been decoded, the lines and chunks after it make
      no difference, even when no final chunk has arrived. */
  lemma PullModelIgnoresAfterComplete(a: seq<Chunk>, b: seq<Chunk>, status: int,
                                      decode: string -> DecodeResult<PullModelResponse>)
    requires IsSuccess(status)
    requires exists k :: 0 <= k < |ChunksRecords(UpToFinal(a), None, decode)|
                      && IsComplete(ChunksRecords(UpToFinal(a), None, decode)[k])
    ensures PullModelRecords(Some(Response(status, Chunked(a + b))), decode)
         == PullModelRecords(Some(Response(status, Chunked(a))), decode)
  {
    LaterChunksAfterStopIgnored(a, b, None, decode, Some(IsComplete));
  }

  /** On a non-2xx status the pull still reads the body and yields at most one
      record: exactly one when the gathered body is non-empty and decodes. */
  lemma PullModelNonSuccess(resp: Response, decode: string -> DecodeResult<PullModelResponse>)
    requires !IsSuccess(resp.status)
    ensures var out := PullModelRecords(Some(resp), decode);
            var text := ResponseText(Some(resp));
      && |out| <= 1
      && (|out| == 1 <==> !IsNullOrEmpty(text) && decode(text.value).Parsed?)
      && (|out| == 1 ==> out[0] == decode(text.value).value)
  {
    WholeBodyAtMostOneRecord(ResponseText(Some(resp)), None, decode);
  }

  /** On a 2xx status the pull decodes exactly as `PostStreamAsync` would with no
      line transform and `IsComplete` as the stop predicate; on other statuses the
      two differ, since `PostStreamAsync` yields nothing there. */
  lemma PullModelAgreesWithPostStreamOnSuccess(resp: Response, decode: string -> DecodeResult<PullModelResponse>)
    ensures IsSuccess(resp.status) ==>
      PullModelRecords(Some(resp), decode) == StreamRecords(Some(resp), None, decode, Some(IsComplete))
    ensures !IsSuccess(resp.status) && !IsNullOrEmpty(ResponseText(Some(resp)))
            && decode(ResponseText(Some(resp)).value).Parsed? ==>
      PullModelRecords(Some(resp), decode) != StreamRecords(Some(resp), None, decode, Some(IsComplete))
  {
    if !IsSuccess(resp.status) {
      PullModelNonSuccess(resp, decode);
    }
  }

  /** A pull that fails with a JSON error body: status 404 and `{"error":...}`
      yields the body decoded once, as one record. */
  lemma PullModelErrorBody(decode: string -> DecodeResult<PullModelResponse>, e: PullModelResponse)
    requires decode("{\"error\":\"pull model manifest: file does not exist\"}") == Parsed(e)
    ensures PullModelRecords(Some(Response(404, Whole(Some("{\"error\":\"pull model manifest: file does not exist\"}")))), decode)
         == [e]
  {
  }

  // ----- ListLocalModels -----

  /** What `JsonDocument.Parse` reveals about the root of a body: an array, an
      object (with the raw text of its `models` property, if it has one), or some
      other JSON value. */
  datatype JsonRoot = ArrayRoot | ObjectRoot(models: Option<string>) | OtherRoot

  /** `ListLocalModels`: `GetRawResponse` on `/api/tags`; an empty list for a null or
      empty body; a body that is not JSON makes `JsonDocument.Parse` throw; an array
      root is decoded as the list, an object root decodes its `models` property or
      gives an empty list without one; any other root makes `TryGetProperty` throw.
      `parse` is `JsonDocument.Parse` (None when it throws) and `decodeList` is
      `Deserialize<List<OllamaLocalModel>>`. */
  function ListLocalModels<M>(endpoint: string, resp: Option<Response>,
                              parse: string -> Option<JsonRoot>,
                              decodeList: string -> DecodeResult<seq<M>>): (r: Result<Option<seq<M>>>)
    ensures IsNullOrEmpty(RawBody(resp)) ==> r == Ok(Some([]))
    ensures !IsNullOrEmpty(RawBody(resp)) ==>
      var text := RawBody(resp).value;
      match parse(text)
      case None => r == Err(JsonException)
      case Some(ArrayRoot) => r == Deserialized(decodeList(text))
      case Some(ObjectRoot(Some(m))) => r == Deserialized(decodeList(m))
      case Some(ObjectRoot(None)) => r == Ok(Some([]))
      case Some(OtherRoot) => r == Err(InvalidOperation)
  {
    var raw := GetRawResponse(endpoint + "/api/tags", resp);
    assert raw == Ok(RawBody(resp));
    var jsonResponse := raw.value;
    if IsNullOrEmpty(jsonResponse) then Ok(Some([]))
    else
      match parse(jsonResponse.value)
      case None => Err(JsonException)
      case Some(ArrayRoot) => Deserialized(decodeList(jsonResponse.value))
      case Some(ObjectRoot(Some(m))) => Deserialized(decodeList(m))
      case Some(ObjectRoot(None)) => Ok(Some([]))
      case Some(OtherRoot) => Err(InvalidOperation)
  }

  /** Models are listed only from a 2xx response whose body is an array or an
      object with a `models` property that decodes to a non-empty list; a non-2xx
      status, a null response or an empty body give the empty list. */
  lemma ListLocalModelsNonEmptyOnlyFromSuccess<M>(endpoint: string, resp: Option<Response>,
                                                  parse: string -> Option<JsonRoot>,
                                                  decodeList: string -> DecodeResult<seq<M>>)
    ensures resp.None? || !IsSuccess(resp.value.status) ==>
      ListLocalModels(endpoint, resp, parse, decodeList) == Ok(Some([]))
    ensures var r := ListLocalModels(endpoint, resp, parse, decodeList);
      r.Ok? && r.value.Some? && r.value.value != [] ==>
        && resp.Some? && IsSuccess(resp.value.status)
        && !IsNullOrEmpty(ResponseText(resp))
        && var text := ResponseText(resp).value;
           (|| (parse(text) == Some(ArrayRoot) && decodeList(text) == Parsed(r.value.value))
            || (exists m :: parse(text) == Some(ObjectRoot(Some(m))) && decodeList(m) == Parsed(r.value.value)))
  {
    var r := ListLocalModels(endpoint, resp, parse, decodeList);
    if r.Ok? && r.value.Some? && r.value.value != [] {
      var text := RawBody(resp).value;
      match parse(text)
      case Some(ObjectRoot(Some(m))) =>
        assert parse(text) == Some(ObjectRoot(Some(m))) && decodeList(m) == Parsed(r.value.value);
      case _ =>
    }
  }

  /** The list can still be null: an object whose `models` property is the JSON
      literal `null` decodes to null, and that is returned as it is. */
  lemma ListLocalModelsNullModels<M>(endpoint: string, status: int, text: string,
                                     parse: string -> Option<JsonRoot>,
                                     decodeList: string -> DecodeResult<seq<M>>)
    requires IsSuccess(status) && text != []
    requires parse(text) == Some(ObjectRoot(Some("null"))) && decodeList("null") == NullValue
    ensures ListLocalModels(endpoint, Some(Response(status, Whole(Some(text)))), parse, decodeList) == Ok(None)
  {
  }

  // ----- Embeddings -----

  /** The body `GenerateMultipleEmbeddings` serialises: `{ model, input }` for more
      than one input, the request itself otherwise. */
  function MultipleEmbeddingsBody(req: EmbeddingsRequest): (b: WireBody)
    ensures b.ModelAndInput? <==> HasMultipleInputs(req)
    ensures b.ModelAndInput? ==> b.model == req.model && b.input == req.inputs.value
    ensures b.Serialized? ==> b.payload == OllamaEmbeddings(req)
  {
    EmbeddingsBody(req, OllamaEmbeddings(req))
  }

  /** `GenerateMultipleEmbeddings`: a null request is refused; otherwise the
      response is read with `ReadResponse` and a value is decoded only for a 2xx
      status with a non-empty body. */
  function GenerateMultipleEmbeddings<R>(request: Option<EmbeddingsRequest>, resp: Option<Response>,
                                         decode: string -> DecodeResult<R>): (r: Result<Option<R>>)
    ensures request.None? ==> r == Err(ArgumentNull("request"))
    ensures request.Some? && (resp.None? || !IsSuccess(resp.value.status) || IsNullOrEmpty(ResponseText(resp))) ==>
      r == Ok(None)
    ensures request.Some? && resp.Some? && IsSuccess(resp.value.status) && !IsNullOrEmpty(ResponseText(resp)) ==>
      r == Deserialized(decode(ResponseText(resp).value))
  {
    if request.None? then Err(ArgumentNull("request"))
    else
      match resp
      case None => Ok(None)
      case Some(response) =>
        var responseData := ResponseText(resp);
        if IsSuccess(response.status) then
          if !IsNullOrEmpty(responseData) then Deserialized(decode(responseData.value))
          else Ok(None)
        else Ok(None)
  }

  /** `GenerateEmbeddings`: the request goes to `PostAsync` unchanged. */
  function GenerateEmbeddings<R>(endpoint: string, request: Option<EmbeddingsRequest>, resp: Option<Response>,
                                 decode: string -> DecodeResult<R>): (r: Result<Option<R>>)
    ensures request.None? ==> r == Err(ArgumentNull("data"))
    ensures request.Some? ==> r == TypedResult(resp, decode)
  {
    var data := if request.Some? then Some(OllamaEmbeddings(request.value)) else None;
    PostAsync(endpoint + "/api/embed", data, resp, decode)
  }

  /** For a non-null request the two embeddings calls classify the response the
      same way: the multiple-input variant differs only in the body it sends, and
      for an Ollama request `PostAsync` never rewrites the body. */
  lemma EmbeddingsCallsAgree<R>(endpoint: string, req: EmbeddingsRequest, resp: Option<Response>,
                                decode: string -> DecodeResult<R>)
    ensures GenerateMultipleEmbeddings(Some(req), resp, decode) == GenerateEmbeddings(endpoint, Some(req), resp, decode)
    ensures PostBody(OllamaEmbeddings(req)) == Serialized(OllamaEmbeddings(req))
    ensures HasMultipleInputs(req) ==> MultipleEmbeddingsBody(req) != PostBody(OllamaEmbeddings(req))
  {
  }

  // ----- Streaming completions -----

  /** The streamed generate record (`OllamaStreamingCompletionResult`), with the
      properties the chat mapping reads. */
  datatype StreamingResult = StreamingResult(model: Option<string>, createdAt: Option<string>,
                                             response: Option<string>, done: bool)

  datatype ChatMessage = ChatMessage(role: string, content: Option<string>)

  /** `OllamaGenerateChatCompletionChunk`. */
  datatype ChatChunk = ChatChunk(model: Option<string>, createdAt: Option<string>,
                                 message: ChatMessage, done: bool)

  /** The chunk built from one streamed record. */
  function ToChatChunk(s: StreamingResult): (c: ChatChunk)
    ensures c.message.role == "assistant" && c.message.content == s.response
    ensures c.model == s.model && c.createdAt == s.createdAt && c.done == s.done
  {
    ChatChunk(s.model, s.createdAt, ChatMessage("assistant", s.response), s.done)
  }

  /** One chat chunk per streamed record, in the same order. */
  function ChatChunks(rs: seq<StreamingResult>): (cs: seq<ChatChunk>)
    ensures |cs| == |rs|
    ensures forall k :: 0 <= k < |rs| ==> cs[k] == ToChatChunk(rs[k])
    decreases |rs|
  {
    if rs == [] then [] else [ToChatChunk(rs[0])] + ChatChunks(rs[1..])
  }

  /** What a streaming method yields: nothing and a thrown NullReferenceException
      for a null request (its `Stream` is assigned first), else the stream
      `PostStreamAsync` decodes with no line transform and no stop predicate. */
  function StreamResult(request: CompletionRequest?, endpoint: string, path: string,
                        resp: Option<Response>, decode: string -> DecodeResult<StreamingResult>)
    : Result<seq<StreamingResult>>
  {
    if request == null then Err(NullReference)
    else PostStreamResult(endpoint + path, Some(OtherRequest(path)), resp, None, decode, None)
  }

  /** `GenerateChatCompletionStream`: sets `request.Stream`, then maps every
      streamed record of `/api/chat` to a chat chunk. */
  method GenerateChatCompletionStream(request: CompletionRequest?, endpoint: string, resp: Option<Response>,
                                      decode: string -> DecodeResult<StreamingResult>)
    returns (r: Result<seq<ChatChunk>>)
    modifies request
    ensures request != null ==> request.Stream
    ensures var s := StreamResult(request, endpoint, "/api/chat", resp, decode);
      r == (if s.Ok? then Ok(ChatChunks(s.value)) else Err(s.error))
  {
    if request == null {
      return Err(NullReference);
    }
    request.Stream := true;
    var url := endpoint + "/api/chat";
    var streamed := PostStream(url, Some(OtherRequest("/api/chat")), resp, None, decode, None);
    if streamed.Err? {
      return Err(streamed.error);
    }
    var rs := streamed.value;
    var chunks: seq<ChatChunk> := [];
    var i := 0;
    while i < |rs|
      invariant 0 <= i <= |rs|
      invariant chunks == ChatChunks(rs[..i])
      invariant request.Stream
    {
      ChatChunksStep(rs, i);
      chunks := chunks + [ToChatChunk(rs[i])];
      i := i + 1;
    }
    assert rs[..i] == rs;
    r := Ok(chunks);
  }

  lemma ChatChunksStep(rs: seq<StreamingResult>, i: nat)
    requires i < |rs|
    ensures ChatChunks(rs[..i + 1]) == ChatChunks(rs[..i]) + [ToChatChunk(rs[i])]
  {
    var a := ChatChunks(rs[..i + 1]);
    var b := ChatChunks(rs[..i]) + [ToChatChunk(rs[i])];
    assert |a| == |b|;
    forall k | 0 <= k < |a| ensures a[k] == b[k] {
      assert rs[..i + 1][k] == rs[k];
      if k < i { assert rs[..i][k] == rs[k]; }
    }
  }

  /** `GenerateCompletionStream`: sets `request.Stream`, then forwards every
      streamed record of `/api/generate` unchanged. */
  method GenerateCompletionStream(request: CompletionRequest?, endpoint: string, resp: Option<Response>,
                                  decode: string -> DecodeResult<StreamingResult>)
    returns (r: Result<seq<StreamingResult>>)
    modifies request
    ensures request != null ==> request.Stream
    ensures r == StreamResult(request, endpoint, "/api/generate", resp, decode)
  {
    if request == null {
      return Err(NullReference);
    }
    request.Stream := true;
    var url := endpoint + "/api/generate";
    var streamed := PostStream(url, Some(OtherRequest("/api/generate")), resp, None, decode, None);
    if streamed.Err? {
      return Err(streamed.error);
    }
    var out: seq<StreamingResult> := [];
    var i := 0;
    while i < |streamed.value|
      invariant 0 <= i <= |streamed.value|
      invariant out == streamed.value[..i]
      invariant request.Stream
    {
      out := out + [streamed.value[i]];
      i := i + 1;
    }
    assert streamed.value[..i] == streamed.value;
    r := Ok(out);
  }

  /** With no stop predicate a streaming method yields every record the consumed
      chunks decode to: for a non-null request and a 2xx chunked response, one
      record per decodable line up to the first final chunk. */
  lemma StreamYieldsAllRecords(request: CompletionRequest, endpoint: string, path: string, status: int,
                               cs: seq<Chunk>, decode: string -> DecodeResult<StreamingResult>)
    requires IsSuccess(status) && path != []
    ensures StreamResult(request, endpoint, path, Some(Response(status, Chunked(cs))), decode)
         == Ok(ChunksRecords(UpToFinal(cs), None, decode))
  {
    var all := ChunksRecords(UpToFinal(cs), None, decode);
    var none: Option<StreamingResult -> bool> := None;
    assert NoStopIn(all, none);
    UntilStopNone(all, none);
  }

  /** The chat stream has one chunk per streamed record, in order, each carrying
      the record's model, time, text and done flag as an assistant message. */
  lemma ChatStreamMapsEachRecord(rs: seq<StreamingResult>, k: nat)
    requires k < |rs|
    ensures |ChatChunks(rs)| == |rs|
    ensures ChatChunks(rs)[k] == ChatChunk(rs[k].model, rs[k].createdAt,
                                           ChatMessage("assistant", rs[k].response), rs[k].done)
  {
  }
}
