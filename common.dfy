/** Values shared by every part of the SDK model: optional (nullable) values,
    the exceptions the SDK lets escape, and what a JSON deserialisation gives. */
module Common {

  /** A nullable value: `None` stands for C#'s `null`. */
  datatype Option<+T> = None | Some(value: T)

  /** The exceptions the modelled code throws or lets propagate. */
  datatype Exception =
    | ArgumentNull(param: string)   // ArgumentNullException(nameof(param))
    | NullReference                 // a member access on a null reference
    | JsonException                 // a malformed JSON text reached an uncaught deserialiser
    | InvalidOperation              // JsonElement.TryGetProperty on a root that is not an object

  /** The outcome of a call: a returned value or a thrown exception. */
  datatype Result<+T> = Ok(value: T) | Err(error: Exception)

  /** What `JsonSerializer.Deserialize<T>(text)` does with one text: it gives a
      value, gives null (the text is the JSON literal `null`), or throws. */
  datatype DecodeResult<+T> = Parsed(value: T) | NullValue | Malformed

  /** The result of a `return JsonSerializer.Deserialize<T>(...)` that nothing
      catches: a value, null, or the propagated JsonException. */
  function Deserialized<T>(d: DecodeResult<T>): (r: Result<Option<T>>)
    ensures r.Ok? && r.value.Some? <==> d.Parsed?
    ensures d.Parsed? ==> r.value.value == d.value
    ensures r.Err? <==> d.Malformed?
    ensures r.Err? ==> r.error == JsonException
  {
    match d
    case Parsed(v) => Ok(Some(v))
    case NullValue => Ok(None)
    case Malformed => Err(JsonException)
  }

  /** Concatenation regrouped, as a lemma of its own: stating it where the parts
      are large function terms costs the solver far more. */
  lemma Regroup<T>(a: seq<T>, b: seq<T>, c: seq<T>)
    ensures a + (b + c) == a + b + c
  {
  }

  /** A completion or chat request object; of its properties only the
      `Stream` flag, which the streaming methods assign, is modelled. */
  class CompletionRequest {
    var Stream: bool

    constructor (stream: bool)
      ensures Stream == stream
    {
      Stream := stream;
    }
  }
}
