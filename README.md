# SharpAI SDK: streaming response decoder, in Dafny

This project models the core of the SharpAI .NET SDK (`SharpAISdk`, `OllamaMethods`,
`OpenAIMethods` and `SharpAIPullModelResponse`) and proves properties of that model.
The core sends JSON requests to an Ollama- or OpenAI-compatible server and reads
back what the server sends. The part that matters most is the decoder behind
`PostStreamAsync<T>` and `PullModel`. It reads a chunked HTTP body chunk by chunk,
splits each chunk's text on '\n', drops blank lines, optionally rewrites each line
(the OpenAI methods strip `data: `), and decodes each line as JSON. Lines that
fail to decode or decode to null are skipped. It yields each record, stops after
the first record the stop predicate accepts (`IsComplete` for a model pull), and
stops at the first final chunk.

The HTTP transport is given input. A response is `Option<Response>`, with `None`
for a null `RestResponse`. It carries a status code and either a whole body
(`DataAsString`, possibly null) or the sequence of chunks `ReadChunkAsync`
returns. JSON deserialisation is a function parameter `decode: string ->
DecodeResult<T>`. It gives a value, null (the literal `null`) or a malformed
verdict, which stands for a thrown `JsonException`. An exception the SDK throws
or lets escape is the `Err` side of `Result`.

Modules, one per source concern:

- `Common`: nullable values, the exceptions, `Result`, the deserialisation outcome.
  It also holds the `CompletionRequest` class, whose `Stream` flag the streaming
  methods assign.
- `Text`: the .NET string operations used, on `seq<char>`. These are
  `Split('\n')` with and without `RemoveEmptyEntries`, `IsNullOrWhiteSpace`,
  `TrimEnd`, `StartsWith` and ordinal case-insensitive equality.
- `Transport`: chunks, bodies, responses, the 2xx test, and "up to the first
  final chunk".
- `Sdk`: the constructor, `Log` and `ReadResponse`. It also has the typed and raw
  request helpers and the embeddings body choice in `PostAsync`.
- `StreamDecoder`: `PostStreamAsync<T>`. Its methods (`DecodeLine`, `DriveLines`,
  `DriveChunk`, `DriveChunks`, `PostStream`) follow the source's loops and are
  proved against the specification functions `LinesRecords`, `ChunksRecords`,
  `UntilStop` and `ChunkedStream`.
- `PullProgress`: the pull progress record, `IsComplete`, `HasError`, the
  percentage, `FormatBytes` as a loop, and `GetFormattedProgress`.
- `Ollama`: `PullModel` with its own copy of the chunk loop, `ListLocalModels`,
  the embeddings calls, and the two streaming methods.
- `OpenAI`: the `data: ` stripper, the null guards, the streaming methods, the
  embeddings calls and the other posted requests.
- `BufferedDecoder`: kept apart from the SDK model. It is a decoder that carries
  the unterminated tail of a chunk into the next chunk. It exists to show the
  finding below and its correction. The SDK model itself keeps the decoder as
  written, where every chunk is split on its own.

## Model

| member | source | states |
|---|---|---|
| Common.Deserialized | src/SharpAI.Sdk/SharpAISdk.cs:187 | an uncaught `Deserialize<T>` returns a value exactly for a parsed text, null for the `null` literal, and a propagated JsonException exactly for a malformed text |
| Sdk.New | src/SharpAI.Sdk/SharpAISdk.cs:70-75 | the constructor fails with ArgumentNullException("endpoint") exactly when the endpoint is null or empty; otherwise the timeout is 300000 ms and both log flags are off |
| Sdk.NewTrimsTrailingSlashes | src/SharpAI.Sdk/SharpAISdk.cs:75 | `Endpoint` is a prefix of the given text, everything removed is '/', and the endpoint does not end in '/' |
| Text.TrimEnd | src/SharpAI.Sdk/SharpAISdk.cs:75 | `TrimEnd('/')` gives the longest prefix not ending in the character, and all of the cut-off part is that character |
| Sdk.Log | src/SharpAI.Sdk/SharpAISdk.cs:116-120 | the logger gets at most one entry; it gets one exactly when a logger is set and the message is non-empty, and the entry carries the given level and message |
| Sdk.ReadResponse | src/SharpAI.Sdk/SharpAISdk.cs:441-469 | null for a null response, `DataAsString` for a whole body, and the joined texts of the chunks up to the first final one for a chunked body |
| Sdk.ReadChunks | src/SharpAI.Sdk/SharpAISdk.cs:447-462 | the loop that skips empty chunks and breaks at a final one produces the concatenated texts of the chunks it consumes |
| Sdk.ReadResponseStopsAtFinal | src/SharpAI.Sdk/SharpAISdk.cs:452-459 | chunks after the first final chunk never change what is read |
| Sdk.ReadResponseJoinsInOrder | src/SharpAI.Sdk/SharpAISdk.cs:452-461 | before a final chunk, each chunk's text is appended in arrival order |
| Transport.UpToFinal | src/SharpAI.Sdk/SharpAISdk.cs:452-459 | the consumed chunks are a prefix of the chunks; either none of them is final, or exactly the last one is; anything left out comes after a final chunk |
| Transport.UpToFinalIgnoresTail | src/SharpAI.Sdk/SharpAISdk.cs:555 | once a final chunk has been read, nothing after it is consumed |
| Sdk.TypedResult | src/SharpAI.Sdk/SharpAISdk.cs:172-205 | a typed helper returns a value only for a 2xx response with a non-empty body that decodes to it; it throws JsonException only for a 2xx non-empty malformed body |
| Sdk.TypedValueExactlyOnSuccess | src/SharpAI.Sdk/SharpAISdk.cs:180-205 | both directions: a value is returned exactly when the response is 2xx, non-empty and decodes; a null response, a non-2xx status and an empty body all give null |
| Sdk.RawBody | src/SharpAI.Sdk/SharpAISdk.cs:368-383 | a raw helper returns a body only for a 2xx status, and then the text `ReadResponse` read |
| Sdk.RawBodyExactlyOnSuccess | src/SharpAI.Sdk/SharpAISdk.cs:415-430 | both directions: the raw body is non-null exactly for a 2xx response whose text is non-null |
| Sdk.PostBodyChoice | src/SharpAI.Sdk/SharpAISdk.cs:139-158 | `PostAsync` sends `{ model, input }` exactly for an OpenAI embeddings request with more than one input, carrying that model and those inputs; any other object is sent as it is |
| Sdk.PostAsync | src/SharpAI.Sdk/SharpAISdk.cs:130-209 | an empty url is refused first, then a null object; otherwise the typed response rule applies |
| Sdk.GetAsync | src/SharpAI.Sdk/SharpAISdk.cs:217-263 | an empty url is refused; otherwise the typed response rule applies |
| Sdk.DeleteAsync | src/SharpAI.Sdk/SharpAISdk.cs:276-329 | an empty url is refused, then a null object; otherwise the typed response rule applies |
| Sdk.GetRawPostResponse | src/SharpAI.Sdk/SharpAISdk.cs:341-384 | the url and object guards, then the raw body rule |
| Sdk.GetRawResponse | src/SharpAI.Sdk/SharpAISdk.cs:394-431 | the url guard, then the raw body rule |
| Text.SplitJoin | src/SharpAI.Sdk/SharpAISdk.cs:523 | the pieces of `Split('\n')` contain no '\n', and joining them with '\n' gives the text back |
| Text.JoinSplit | src/SharpAI.Sdk/SharpAISdk.cs:523 | splitting '\n'-free pieces joined by '\n' gives the pieces back |
| Text.RemoveEmpty | src/SharpAI.Sdk/SharpAISdk.cs:523 | `RemoveEmptyEntries` keeps no empty piece and never adds one |
| Text.RemoveEmptyMembers | src/SharpAI.Sdk/SharpAISdk.cs:523 | `RemoveEmptyEntries` keeps every non-empty piece and only those: a text is in the result exactly when it is a non-empty piece of the input |
| Text.RemoveEmptyAppend | src/SharpAI.Sdk/SharpAISdk.cs:523 | `RemoveEmptyEntries` keeps the pieces in their order: removing from two parts joined is removing from each and joining |
| StreamDecoder.LineRecord | src/SharpAI.Sdk/SharpAISdk.cs:527-552 | a line yields a record exactly when it is not white space and its processed text decodes to a non-null value, and the record is that value |
| StreamDecoder.UntilStop | src/SharpAI.Sdk/SharpAISdk.cs:549-550 | the yielded records are a prefix of the records; none but the last satisfies the stop predicate, and when records are cut off, the last one yielded satisfies it |
| StreamDecoder.DecodeLine | src/SharpAI.Sdk/SharpAISdk.cs:527-548 | one pass of the loop over lines yields exactly the line's record: none for a blank line or one that fails to decode or decodes to null, else the decoded value of the transformed line |
| StreamDecoder.DriveLines | src/SharpAI.Sdk/SharpAISdk.cs:525-553 | the foreach loop over one chunk's lines yields the lines' records up to the first stopping one, and reports `yield break` exactly when a stopping record occurs |
| StreamDecoder.DriveChunk | src/SharpAI.Sdk/SharpAISdk.cs:518-554 | a chunk with no data yields nothing; otherwise the line loop runs over its text split on '\n' without empty entries |
| StreamDecoder.DriveChunks | src/SharpAI.Sdk/SharpAISdk.cs:516-556 | the chunk loop yields each consumed chunk's records, taken on its own and in order, up to the first stopping record, and reads no chunk after the first final one |
| StreamDecoder.PostStream | src/SharpAI.Sdk/SharpAISdk.cs:481-592 | url guard, then data guard; nothing for a null response or a non-2xx status; the chunked records, or the whole body processed and decoded once |
| StreamDecoder.NonSuccessYieldsNothing | src/SharpAI.Sdk/SharpAISdk.cs:579-589 | a null response and any non-2xx status yield no record, whatever the body |
| StreamDecoder.MalformedLineSkipped | src/SharpAI.Sdk/SharpAISdk.cs:532-541 | a line that fails to decode or decodes to null is skipped without ending the stream; the lines around it yield what they yield without it |
| StreamDecoder.EveryDecodableLineYields | src/SharpAI.Sdk/SharpAISdk.cs:525-552 | when every line is non-blank and decodes, there is one record per line, in order, each the decoded processed line |
| StreamDecoder.RecordsComeFromLines | src/SharpAI.Sdk/SharpAISdk.cs:525-552 | every record comes from some non-blank line that decodes to it |
| StreamDecoder.ChunksDecodeIndependently | src/SharpAI.Sdk/SharpAISdk.cs:518-523 | no text carries across chunks: before the first final chunk, the records are each chunk's own records, concatenated |
| StreamDecoder.ChunkedStreamStopsAtFirstStop | src/SharpAI.Sdk/SharpAISdk.cs:543-555 | the stream is a prefix of all consumed records; every yielded record but the last fails the stop predicate; a cut-off stream ends with a stopping record; with no stopping record everything is yielded |
| StreamDecoder.LaterChunksAfterFinalIgnored | src/SharpAI.Sdk/SharpAISdk.cs:555 | chunks after the first final chunk do not change the stream |
| StreamDecoder.LaterChunksAfterStopIgnored | src/SharpAI.Sdk/SharpAISdk.cs:549-550 | once a stopping record has been decoded, later chunks do not change the stream, even with no final chunk |
| StreamDecoder.WholeBodyAtMostOneRecord | src/SharpAI.Sdk/SharpAISdk.cs:558-578 | a non-chunked body yields at most one record; exactly one when it is non-empty and its processed text decodes, and then it is that value |
| PullProgress.HasError | src/SharpAI.Sdk/Models/SharpAIPullModelResponse.cs:76-79 | a record has an error exactly when `Error` is non-null and non-empty |
| PullProgress.GetProgressPercentage | src/SharpAI.Sdk/Models/SharpAIPullModelResponse.cs:39-46 | null exactly when `Percent` is null, else the fraction times 100 |
| PullProgress.UnitIndexThreshold | src/SharpAI.Sdk/Models/SharpAIPullModelResponse.cs:92-96 | the loop reaches unit k (KB to TB) exactly when the byte count is at least 1024^k |
| PullProgress.DividedFacts | src/SharpAI.Sdk/Models/SharpAIPullModelResponse.cs:92-96 | after k divisions the amount is the count over 1024^k; it is at least 1024 exactly when the count reaches 1024^(k+1), and at least 1 once the count reaches 1024^k |
| PullProgress.FormatBytes | src/SharpAI.Sdk/Models/SharpAIPullModelResponse.cs:86-99 | the loop yields the count divided by 1024 per step, together with that unit; the amount is at least 1 once a unit above B is chosen, and below 1024 unless the unit is TB |
| PullProgress.GetFormattedProgress | src/SharpAI.Sdk/Models/SharpAIPullModelResponse.cs:52-61 | the measured form exactly when both `Downloaded` and `Percent` are known, with the `FormatBytes` amount and unit and the percentage; otherwise the status, or "Unknown" for a null status |
| PullProgress.IsCompleteChars | src/SharpAI.Sdk/Models/SharpAIPullModelResponse.cs:67-70 | complete exactly when the status is non-null and is "success" with each letter in either case; a null status is never complete |
| PullProgress.FreshRecord | src/SharpAI.Sdk/Models/SharpAIPullModelResponse.cs:15-33 | a new record, whose status and error are `""`, is neither complete nor failed, has no percentage, and shows its empty status |
| PullProgress.SampleRecords | src/SharpAI.Sdk/Models/SharpAIPullModelResponse.cs:67-79 | "SUCCESS" and "Success" are complete; "pulling manifest" and a null status are not; a non-empty error is an error |
| PullProgress.SampleUnits | src/SharpAI.Sdk/Models/SharpAIPullModelResponse.cs:86-99 | 1023 bytes is 1023 B, 1024 is 1 KB, 1610612736 is 1.5 GB, and a negative count stays in B |
| Ollama.PullModel | src/SharpAI.Sdk/Implementations/OllamaMethods.cs:37-154 | nothing for a null response; for 2xx, the chunk loop with no line rewrite that stops at a completed record, or the whole body decoded once; for any other status, the body `ReadResponse` gathers, decoded once |
| Ollama.PullModelEndsAtComplete | src/SharpAI.Sdk/Implementations/OllamaMethods.cs:72-100 | the pull yields a prefix of the decoded records, no record before the last is complete, and a cut-off pull ends at a completed record |
| Ollama.PullModelIgnoresAfterComplete | src/SharpAI.Sdk/Implementations/OllamaMethods.cs:97-98 | once a completed record has been decoded, later chunks make no difference |
| Ollama.PullModelNonSuccess | src/SharpAI.Sdk/Implementations/OllamaMethods.cs:126-146 | on a non-2xx status the body is still read and yields at most one record: exactly one when it is non-empty and decodes, and then it is that value |
| Ollama.PullModelAgreesWithPostStreamOnSuccess | src/SharpAI.Sdk/Implementations/OllamaMethods.cs:61-146 | on 2xx the pull decodes as `PostStreamAsync` does with `IsComplete` as stop predicate; on a non-2xx status with a decodable body the two differ |
| Ollama.PullModelErrorBody | src/SharpAI.Sdk/Implementations/OllamaMethods.cs:126-146 | a 404 with a JSON error body yields that body, decoded once, as its one record |
| Ollama.ListLocalModels | src/SharpAI.Sdk/Implementations/OllamaMethods.cs:164-182 | an empty list for a null or empty raw body; a JsonException for a body that is not JSON; an array root decoded as the list; an object root's `models` decoded, or an empty list without it; InvalidOperation for any other root |
| Ollama.ListLocalModelsNonEmptyOnlyFromSuccess | src/SharpAI.Sdk/Implementations/OllamaMethods.cs:168-181 | a null response or non-2xx status gives the empty list; a non-empty list comes only from a 2xx body whose array or `models` property decodes to it |
| Ollama.ListLocalModelsNullModels | src/SharpAI.Sdk/Implementations/OllamaMethods.cs:177-178 | an object whose `models` is the JSON `null` makes the method return null |
| Ollama.MultipleEmbeddingsBody | src/SharpAI.Sdk/Implementations/OllamaMethods.cs:198-211 | `{ model, input }` exactly for more than one input, with that model and those inputs; the request itself otherwise |
| Ollama.GenerateMultipleEmbeddings | src/SharpAI.Sdk/Implementations/OllamaMethods.cs:192-258 | a null request throws ArgumentNullException("request"); otherwise a value only for a 2xx non-empty body, and null for a null response, a non-2xx status or an empty body |
| Ollama.GenerateEmbeddings | src/SharpAI.Sdk/Implementations/OllamaMethods.cs:185-189 | a null request reaches `PostAsync` and is refused as "data"; otherwise the typed response rule applies |
| Ollama.EmbeddingsCallsAgree | src/SharpAI.Sdk/Implementations/OllamaMethods.cs:185-258 | for a non-null request both calls classify the response alike; they differ only in the body, since `PostAsync` never rewrites an Ollama request |
| Ollama.ToChatChunk | src/SharpAI.Sdk/Implementations/OllamaMethods.cs:286-296 | a chat chunk carries the record's model, time and done flag, and an assistant message with the record's text |
| Ollama.ChatChunks | src/SharpAI.Sdk/Implementations/OllamaMethods.cs:281-299 | one chat chunk per streamed record, in the same order |
| Ollama.GenerateChatCompletionStream | src/SharpAI.Sdk/Implementations/OllamaMethods.cs:275-300 | a null request throws NullReferenceException; otherwise `Stream` is set and each `/api/chat` record is mapped to a chat chunk |
| Ollama.GenerateCompletionStream | src/SharpAI.Sdk/Implementations/OllamaMethods.cs:303-317 | a null request throws NullReferenceException; otherwise `Stream` is set and every `/api/generate` record is forwarded unchanged |
| Ollama.StreamYieldsAllRecords | src/SharpAI.Sdk/Implementations/OllamaMethods.cs:281-284 | with no stop predicate, every record of the consumed chunks of a 2xx chunked response is yielded |
| Ollama.ChatStreamMapsEachRecord | src/SharpAI.Sdk/Implementations/OllamaMethods.cs:286-296 | chat chunk k is built from streamed record k |
| OpenAI.StripDataPrefix | src/SharpAI.Sdk/Implementations/OpenAIMethods.cs:143-148 | a line starting with `data: ` loses those six characters; any other line is unchanged |
| OpenAI.StripIsSuffix | src/SharpAI.Sdk/Implementations/OpenAIMethods.cs:143-148 | the result is a suffix of the line, six characters shorter exactly when the prefix was present, and the line itself otherwise |
| OpenAI.StripPrefixed | src/SharpAI.Sdk/Implementations/OpenAIMethods.cs:185-190 | stripping undoes prefixing, for every payload |
| OpenAI.StripNotIdempotent | src/SharpAI.Sdk/Implementations/OpenAIMethods.cs:185-190 | only one prefix is removed per line |
| OpenAI.ForwardStream | src/SharpAI.Sdk/Implementations/OpenAIMethods.cs:129-152 | a null request throws ArgumentNullException("request"); otherwise `Stream` is set and every record of the stripped stream is forwarded in order |
| OpenAI.GenerateCompletionStreamAsync | src/SharpAI.Sdk/Implementations/OpenAIMethods.cs:129-152 | the forwarded stream of `/v1/completions` |
| OpenAI.GenerateChatCompletionStreamAsync | src/SharpAI.Sdk/Implementations/OpenAIMethods.cs:170-194 | the forwarded stream of `/v1/chat/completions` |
| OpenAI.StreamNullRequest | src/SharpAI.Sdk/Implementations/OpenAIMethods.cs:133-134 | a null request is refused whatever the server would send |
| OpenAI.StreamDecodesPayload | src/SharpAI.Sdk/Implementations/OpenAIMethods.cs:143-148 | a `data: ` line yields what its payload decodes to |
| OpenAI.SseChunk | src/SharpAI.Sdk/Implementations/OpenAIMethods.cs:139-151 | a final chunk of a record line, a blank line and `data: [DONE]` yields exactly the record, since the terminator does not decode |
| OpenAI.SampleSseChunk | src/SharpAI.Sdk/Implementations/OpenAIMethods.cs:139-151 | the chunk `data: {"text":"hi"}`, blank line, `data: [DONE]` yields the one record |
| OpenAI.GenerateEmbeddingsAsync | src/SharpAI.Sdk/Implementations/OpenAIMethods.cs:39-45 | a null request throws ArgumentNullException("request"); otherwise the typed response rule applies |
| OpenAI.MultipleEmbeddingsBody | src/SharpAI.Sdk/Implementations/OpenAIMethods.cs:54-67 | `{ model, input }` exactly for more than one input, with that model and those inputs; the request itself otherwise |
| OpenAI.GenerateMultipleEmbeddingsAsync | src/SharpAI.Sdk/Implementations/OpenAIMethods.cs:48-114 | a null request throws; otherwise a value only for a 2xx non-empty body, and null for a null response, a non-2xx status or an empty body |
| OpenAI.EmbeddingsCallsAgree | src/SharpAI.Sdk/Implementations/OpenAIMethods.cs:39-114 | the two OpenAI embeddings calls send the same body and give the same result |
| OpenAI.GeneratePosted | src/SharpAI.Sdk/Implementations/OpenAIMethods.cs:117-167 | `GenerateCompletionAsync` and `GenerateChatCompletionAsync` refuse a null request, then apply the typed response rule |
| BufferedDecoder.BufferedLinesSplitText | src/SharpAI.Sdk/SharpAISdk.cs:516-556 | carrying the open piece from chunk to chunk cuts the joined body text exactly where `Split('\n')` would |
| BufferedDecoder.BufferedIgnoresChunking | src/SharpAI.Sdk/SharpAISdk.cs:516-556 | the corrected decoder gives the same records for any two chunkings with the same joined text |
| BufferedDecoder.SingleChunkAgrees | src/SharpAI.Sdk/SharpAISdk.cs:516-556 | for a body sent as one final chunk, the SDK's decoder and the corrected one agree |
| BufferedDecoder.StraddlingLineLost | src/SharpAI.Sdk/SharpAISdk.cs:522-523 | a line split across two chunks, whose halves do not decode, is lost by the SDK's decoder and yielded by the corrected one |
| BufferedDecoder.PullCompletionLost | src/SharpAI.Sdk/Implementations/OllamaMethods.cs:70-72 | a `success` record split over two chunks is lost by `PullModel`, so the pull never reports completion; the corrected decoder yields it |
| BufferedDecoder.DriveBuffered | src/SharpAI.Sdk/SharpAISdk.cs:516-556 | the corrected read loop, with a carry-over buffer, yields exactly the buffered stream |
| BufferedDecoder.DriveBufferedPullCompletes | src/SharpAI.Sdk/Implementations/OllamaMethods.cs:97-98 | on the split pull, the corrected loop yields a completed record |

## Left out

- Asynchrony, cancellation tokens and the lazy start of `IAsyncEnumerable` methods are not modelled. A stream is the full sequence of records it would yield. Argument checks and the `Stream` assignment are taken to run when the method is called, not on the first `MoveNext`.
- The HTTP library (RestWrapper), request construction, timeouts on the wire and headers are not modelled: the response is given input. RestWrapper is not part of this model.
- JSON serialisation and deserialisation are the `decode` and `parse` function parameters. Property-name case folding, `_JsonOptions`, enum converters and the request schemas are not modelled.
- The exact bytes of a request body are not modelled; `WireBody` records only which object is serialised.
- UTF-8 decoding of chunk bytes is not modelled: a chunk's data is already text, and a null `Data` is the empty text.
- Logging side effects inside the request helpers are not modelled; only `Log` itself is. Its messages carry no observable behaviour.
- `Text.StartsWith` is ordinal, while `line.StartsWith("data: ")` in the source is culture-sensitive. For the ASCII prefix the two agree on ordinary text.
- `Text.EqualsIgnoreCase` folds ASCII letters only. `IsComplete` compares against the ASCII word "success". The two comparisons agree on ASCII text; how .NET's ordinal case-insensitive comparison treats non-ASCII characters is not modelled.
- `PullProgress.GetProgressPercentage`: the decimal percentage and its conversion to `double` are exact reals here, so rounding in the conversion is not modelled.
- `PullProgress.FormatBytes`: the amount is an exact real, and the `F2` and `F1` number formatting of `FormatBytes` and `GetFormattedProgress` is not modelled. The conversion of the `long` byte count to `double` is exact below 2^53 and rounds above it, which the model does not capture; dividing a `double` by 1024 is exact.
- `OllamaMethods.DeleteModel`, `GenerateCompletion` and `GenerateChatCompletion` are not modelled separately. Each is one call of `DeleteAsync` or `PostAsync` on a fixed path, so `Sdk.DeleteAsync` and `Sdk.PostAsync` state their behaviour.
- A `processLine` that returns null (the `?? line` fallback) cannot occur: the only transformer passed, `OpenAI.StripDataPrefix`, never returns null.
- `Dispose`, the interfaces, the command-line programs and the tests are not modelled.
- Sdk.PostAsync, Sdk.GetAsync, Sdk.DeleteAsync, Sdk.GetRawPostResponse and Sdk.GetRawResponse take `url` as a non-null string, so a null url is not an input. In the source a null url fails exactly as an empty one does, with ArgumentNullException("url"), and every caller passes a url built from the endpoint.
- The typed helpers let a JsonException escape, which is modelled. The streaming decoder catches it, which is modelled as skipping the line. Other exceptions from the transport are inputs the model does not have.

Behaviour of the code worth noting:

- `Ollama.ListLocalModels` throws JsonException for a body that is not JSON, and InvalidOperationException for a root that is neither an array nor an object.
- `Ollama.ListLocalModels` returns null when `models` is JSON `null` (its return type is nullable), as `ListLocalModelsNullModels` shows.
- The Ollama streaming methods have no null guard. For a null request the assignment to `request.Stream` throws NullReferenceException, while the OpenAI methods throw ArgumentNullException("request").

## Findings

| source | as written | input that shows it | evidently intended | confidence | as-written member | corrected member |
|---|---|---|---|---|---|---|
| src/SharpAI.Sdk/SharpAISdk.cs:522-523 | every chunk's text is split on '\n' on its own, with no carry-over, so a JSON line split across two chunks is decoded as two fragments and dropped | chunks `{"status":"pulling"}\n{"sta` (not final) and `tus":"success"}\n` (final) on a 2xx `PullModel`: only the `pulling` record is yielded and the pull never completes | lines are cut at '\n' in the joined body text, whatever the chunk boundaries | not executed | BufferedDecoder.StraddlingLineLost | BufferedDecoder.DriveBuffered |
| src/SharpAI.Sdk/Implementations/OllamaMethods.cs:70-72 | `PullModel`'s copy of the loop splits each chunk on its own in the same way | the same two chunks | the completed record is yielded and ends the pull | not executed | BufferedDecoder.PullCompletionLost | BufferedDecoder.DriveBufferedPullCompletes |

`BufferedDecoder.BufferedIgnoresChunking` proves the intended property of the corrected decoder: its records depend only on the joined body text. `BufferedDecoder.DriveBuffered` is the corrected loop, proved against that decoder. The SDK model (`StreamDecoder`, `Ollama`, `OpenAI`) keeps the decoder as written.
