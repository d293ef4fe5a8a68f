/** The request helpers of `SharpAISdk`: endpoint normalisation, logging,
    reading a (possibly chunked) response body, the request-body choice for
    embeddings, and the status/body rule every helper applies to a response. */
module Sdk {
  import opened Common
  import opened Text
  import opened Transport

  /** The SDK settings a constructed client holds. Nothing after the constructor
      changes them through a method, so they are a value. */
  datatype Config = Config(endpoint: string, timeoutMs: int, logRequests: bool, logResponses: bool)

  const DefaultTimeoutMs: int := 300000

  /** The constructor: a null or empty endpoint is refused; otherwise every
      trailing '/' is removed and the defaults are taken. */
  function New(endpoint: Option<string>): (r: Result<Config>)
    ensures r.Err? <==> IsNullOrEmpty(endpoint)
    ensures r.Err? ==> r.error == ArgumentNull("endpoint")
    ensures r.Ok? ==> r.value.timeoutMs == DefaultTimeoutMs && !r.value.logRequests && !r.value.logResponses
  {
    if IsNullOrEmpty(endpoint) then Err(ArgumentNull("endpoint"))
    else Ok(Config(TrimEnd(endpoint.value, '/'), DefaultTimeoutMs, false, false))
  }

  /** `Endpoint` is the given endpoint with exactly its trailing slashes removed:
      the given text is the endpoint followed only by '/', and the endpoint does
      not end in '/'. */
  lemma NewTrimsTrailingSlashes(endpoint: string)
    requires endpoint != []
    ensures New(Some(endpoint)).Ok?
    ensures var e := New(Some(endpoint)).value.endpoint;
      && endpoint[..|e|] == e
      && (forall i :: |e| <= i < |endpoint| ==> endpoint[i] == '/')
      && (e == [] || e[|e| - 1] != '/')
  {
  }

  datatype LogEntry = LogEntry(level: string, message: string)

  /** `Log`: the entries the configured logger receives. An empty message is never
      passed on, and nothing is passed on without a logger. */
  function Log(hasLogger: bool, level: string, message: string): (r: seq<LogEntry>)
    ensures |r| <= 1
    ensures r != [] <==> hasLogger && message != []
    ensures forall e :: e in r ==> e == LogEntry(level, message) && e.message != []
  {
    if message != [] && hasLogger then [LogEntry(level, message)] else []
  }

  /** The texts of a sequence of chunks, concatenated in order. */
  function ChunksText(cs: seq<Chunk>): string
    decreases |cs|
  {
    if cs == [] then [] else cs[0].data + ChunksText(cs[1..])
  }

  lemma {:induction false} ChunksTextAppend(a: seq<Chunk>, b: seq<Chunk>)
    ensures ChunksText(a + b) == ChunksText(a) + ChunksText(b)
    decreases |a|
  {
    if a == [] {
      assert a + b == b;
    } else {
      assert (a + b)[1..] == a[1..] + b;
      ChunksTextAppend(a[1..], b);
    }
  }

  /** What `ReadResponse` makes of a chunked body: the texts of the chunks it
      reads, which are those up to and including the first final one. */
  function ChunkedText(cs: seq<Chunk>): string {
    ChunksText(UpToFinal(cs))
  }

  /** What `ReadResponse` returns: null for a null response, the joined chunk
      texts for a chunked one, and `DataAsString` otherwise. */
  function ResponseText(resp: Option<Response>): Option<string> {
    match resp
    case None => None
    case Some(r) =>
      match r.body
      case Whole(t) => t
      case Chunked(cs) => Some(ChunkedText(cs))
  }

  /** `ReadResponse`: null for a null response, `DataAsString` for a whole body,
      the joined chunk texts for a chunked one. */
  method ReadResponse(resp: Option<Response>) returns (text: Option<string>)
    ensures text == ResponseText(resp)
  {
    if resp.None? {
      return None;
    }
    match resp.value.body {
      case Whole(t) =>
        text := t;
      case Chunked(cs) =>
        var s := ReadChunks(cs);
        text := Some(s);
    }
  }

  /** The chunked branch of `ReadResponse`: collects the non-empty chunk texts until
      a final chunk, then joins them. */
  method ReadChunks(cs: seq<Chunk>) returns (text: string)
    ensures text == ChunkedText(cs)
  {
    var chunks: seq<string> := [];
    var i := 0;
    while i < |cs|
      invariant 0 <= i <= |cs|
      invariant NoFinal(cs[..i])
      invariant forall k :: 0 <= k < |chunks| ==> chunks[k] != []
      invariant Concat(chunks) == ChunksText(cs[..i])
    {
      var chunk := cs[i];
      ReadStep(chunks, cs, i);
      if |chunk.data| > 0 {
        chunks := chunks + [chunk.data];
      }
      if chunk.isFinal {
        UpToFinalFrom(cs, i);
        assert UpToFinal(cs) == cs[..i + 1];
        break;
      }
      i := i + 1;
    }
    if i == |cs| {
      assert cs[..i] == cs;
    }
    text := Concat(chunks);
  }

  /** One step of `ReadChunks`: adding a chunk's text (or skipping it when empty)
      extends the joined text by that chunk's text. */
  lemma ReadStep(chunks: seq<string>, cs: seq<Chunk>, i: nat)
    requires i < |cs| && Concat(chunks) == ChunksText(cs[..i])
    ensures Concat(chunks + [cs[i].data]) == ChunksText(cs[..i + 1])
    ensures cs[i].data == [] ==> Concat(chunks) == ChunksText(cs[..i + 1])
  {
    ConcatAppend(chunks, [cs[i].data]);
    assert cs[..i + 1] == cs[..i] + [cs[i]];
    ChunksTextAppend(cs[..i], [cs[i]]);
    assert Concat([cs[i].data]) == cs[i].data + Concat([]);
    assert ChunksText([cs[i]]) == cs[i].data + ChunksText([]);
  }

  /** `ReadResponse` never reads past the first final chunk: whatever follows it
      leaves the result unchanged. */
  lemma ReadResponseStopsAtFinal(a: seq<Chunk>, b: seq<Chunk>)
    requires !NoFinal(a)
    ensures ChunkedText(a + b) == ChunkedText(a)
  {
    UpToFinalIgnoresTail(a, b);
  }

  /** Without a final chunk `ReadResponse` joins every chunk it is given, and the
      chunks before a final one contribute their texts in order. */
  lemma {:induction false} ReadResponseJoinsInOrder(a: seq<Chunk>, b: seq<Chunk>)
    requires NoFinal(a)
    ensures ChunkedText(a + b) == ChunksText(a) + ChunkedText(b)
  {
    UpToFinalAppend(a, b);
    ChunksTextAppend(a, UpToFinal(b));
  }

  /** The rule `PostAsync`, `GetAsync`, `DeleteAsync` and the embeddings helpers
      apply to a response: a decoded value only for a 2xx status with a non-empty
      body; default (null) for every other response; a malformed body makes the
      uncaught JsonException propagate. */
  function TypedResult<T>(resp: Option<Response>, decode: string -> DecodeResult<T>): (r: Result<Option<T>>)
    ensures r.Ok? && r.value.Some? ==>
      && resp.Some? && IsSuccess(resp.value.status)
      && !IsNullOrEmpty(ResponseText(resp))
      && decode(ResponseText(resp).value) == Parsed(r.value.value)
    ensures r.Err? ==>
      && r.error == JsonException
      && resp.Some? && IsSuccess(resp.value.status)
      && !IsNullOrEmpty(ResponseText(resp))
      && decode(ResponseText(resp).value).Malformed?
    ensures resp.Some? && IsSuccess(resp.value.status) && !IsNullOrEmpty(ResponseText(resp)) ==>
      r == Deserialized(decode(ResponseText(resp).value))
  {
    match resp
    case None => Ok(None)
    case Some(response) =>
      var body := ResponseText(resp);
      if IsSuccess(response.status) && !IsNullOrEmpty(body) then Deserialized(decode(body.value))
      else Ok(None)
  }

  /** The rule the raw helpers apply: the body exactly when the status is 2xx. */
  function RawBody(resp: Option<Response>): (r: Option<string>)
    ensures r.Some? ==> resp.Some? && IsSuccess(resp.value.status)
    ensures resp.Some? && IsSuccess(resp.value.status) ==> r == ResponseText(resp)
  {
    match resp
    case None => None
    case Some(response) => if IsSuccess(response.status) then ResponseText(resp) else None
  }

  /** The request for embeddings of one or more inputs; `inputs` is what
      `GetInputs()` returns. */
  datatype EmbeddingsRequest = EmbeddingsRequest(model: string, inputs: Option<seq<string>>)

  /** The request objects handed to the helpers (only the embeddings requests are
      inspected; every other request is serialised as it is). */
  datatype Payload =
    | OpenAIEmbeddings(req: EmbeddingsRequest)
    | OllamaEmbeddings(req: EmbeddingsRequest)
    | OtherRequest(name: string)

  /** What is serialised into the request body: the `{ model, input }` object, or
      the request object itself. */
  datatype WireBody = ModelAndInput(model: string, input: seq<string>) | Serialized(payload: Payload)

  predicate HasMultipleInputs(req: EmbeddingsRequest) {
    req.inputs.Some? && |req.inputs.value| > 1
  }

  /** The embeddings body choice: `{ model, input }` when there is more than one
      input, the request `asIs` otherwise. */
  function EmbeddingsBody(req: EmbeddingsRequest, asIs: Payload): WireBody {
    if HasMultipleInputs(req) then ModelAndInput(req.model, req.inputs.value) else Serialized(asIs)
  }

  /** The body `PostAsync` sends: the embeddings choice for an OpenAI embeddings
      request, the serialised object for anything else. */
  function PostBody(data: Payload): WireBody {
    match data
    case OpenAIEmbeddings(req) => EmbeddingsBody(req, data)
    case _ => Serialized(data)
  }

  /** The `{ model, input }` body is sent exactly for an OpenAI embeddings request
      with more than one input, and carries that model and those inputs; any other
      request goes out unchanged. */
  lemma PostBodyChoice(data: Payload)
    ensures PostBody(data).ModelAndInput? <==> data.OpenAIEmbeddings? && HasMultipleInputs(data.req)
    ensures PostBody(data).ModelAndInput? ==>
      PostBody(data) == ModelAndInput(data.req.model, data.req.inputs.value)
    ensures PostBody(data).Serialized? ==> PostBody(data).payload == data
  {
  }

  /** `PostAsync<T>`. */
  function PostAsync<T>(url: string, data: Option<Payload>, resp: Option<Response>,
                        decode: string -> DecodeResult<T>): (r: Result<Option<T>>)
    ensures url == [] ==> r == Err(ArgumentNull("url"))
    ensures url != [] && data.None? ==> r == Err(ArgumentNull("data"))
    ensures url != [] && data.Some? ==> r == TypedResult(resp, decode)
  {
    if url == [] then Err(ArgumentNull("url"))
    else if data.None? then Err(ArgumentNull("data"))
    else TypedResult(resp, decode)
  }

  /** `GetAsync<T>`. */
  function GetAsync<T>(url: string, resp: Option<Response>, decode: string -> DecodeResult<T>): (r: Result<Option<T>>)
    ensures url == [] ==> r == Err(ArgumentNull("url"))
    ensures url != [] ==> r == TypedResult(resp, decode)
  {
    if url == [] then Err(ArgumentNull("url")) else TypedResult(resp, decode)
  }

  /** `DeleteAsync<T>`; its body is always the serialised object. */
  function DeleteAsync<T>(url: string, data: Option<Payload>, resp: Option<Response>,
                          decode: string -> DecodeResult<T>): (r: Result<Option<T>>)
    ensures url == [] ==> r == Err(ArgumentNull("url"))
    ensures url != [] && data.None? ==> r == Err(ArgumentNull("data"))
    ensures url != [] && data.Some? ==> r == TypedResult(resp, decode)
  {
    if url == [] then Err(ArgumentNull("url"))
    else if data.None? then Err(ArgumentNull("data"))
    else TypedResult(resp, decode)
  }

  /** `GetRawPostResponse`. */
  function GetRawPostResponse(url: string, data: Option<Payload>, resp: Option<Response>): (r: Result<Option<string>>)
    ensures url == [] ==> r == Err(ArgumentNull("url"))
    ensures url != [] && data.None? ==> r == Err(ArgumentNull("data"))
    ensures url != [] && data.Some? ==> r == Ok(RawBody(resp))
  {
    if url == [] then Err(ArgumentNull("url"))
    else if data.None? then Err(ArgumentNull("data"))
    else Ok(RawBody(resp))
  }

  /** `GetRawResponse`. */
  function GetRawResponse(url: string, resp: Option<Response>): (r: Result<Option<string>>)
    ensures url == [] ==> r == Err(ArgumentNull("url"))
    ensures url != [] ==> r == Ok(RawBody(resp))
  {
    if url == [] then Err(ArgumentNull("url")) else Ok(RawBody(resp))
  }

  /** A typed helper yields a value exactly for a 2xx response with a non-empty
      body that decodes; a non-2xx status, a null response and an empty body all
      give null, whatever the body holds. */
  lemma TypedValueExactlyOnSuccess<T>(resp: Option<Response>, decode: string -> DecodeResult<T>, v: T)
    ensures TypedResult(resp, decode) == Ok(Some(v)) <==>
      && resp.Some? && IsSuccess(resp.value.status)
      && !IsNullOrEmpty(ResponseText(resp))
      && decode(ResponseText(resp).value) == Parsed(v)
    ensures resp.None? || !IsSuccess(resp.value.status) || IsNullOrEmpty(ResponseText(resp)) ==>
      TypedResult(resp, decode) == Ok(None)
  {
  }

  /** A raw helper returns the body, empty or not, exactly when the status is 2xx. */
  lemma RawBodyExactlyOnSuccess(resp: Option<Response>)
    ensures RawBody(resp).Some? <==> resp.Some? && IsSuccess(resp.value.status) && ResponseText(resp).Some?
  {
  }
}
