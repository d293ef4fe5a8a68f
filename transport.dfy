/** What the HTTP library (RestWrapper) hands the SDK, taken as given input: a status
    code and either a whole body or the sequence of chunks that `ReadChunkAsync`
    returns in order. A null `RestResponse` is `None` at the call sites. */
module Transport {
  import opened Common

  /** One chunk of a chunked body: its text (UTF-8 already decoded; a null
      `Data` is the empty text) and the final-chunk marker. */
  datatype Chunk = Chunk(data: string, isFinal: bool)

  /** The body of a response: `DataAsString` (which may be null) when the transfer
      is not chunked, or the chunks `ReadChunkAsync` delivers until it returns null. */
  datatype Body = Whole(text: Option<string>) | Chunked(chunks: seq<Chunk>)

  datatype Response = Response(status: int, body: Body)

  /** The SDK's success test, `StatusCode >= 200 && StatusCode <= 299`. */
  predicate IsSuccess(status: int) {
    200 <= status <= 299
  }

  predicate NoFinal(cs: seq<Chunk>) {
    forall i :: 0 <= i < |cs| ==> !cs[i].isFinal
  }

  /** The chunks a reader loop consumes: every chunk up to and including the first
      final one (all of them when none is final). */
  function UpToFinal(cs: seq<Chunk>): (r: seq<Chunk>)
    ensures |r| <= |cs| && r == cs[..|r|]
    ensures NoFinal(r) || (r != [] && r[|r| - 1].isFinal && NoFinal(r[..|r| - 1]))
    ensures |r| < |cs| ==> r != [] && r[|r| - 1].isFinal
    decreases |cs|
  {
    if cs == [] then []
    else if cs[0].isFinal then [cs[0]]
    else
      var rest := UpToFinal(cs[1..]);
      assert [cs[0]] + rest == cs[..|rest| + 1];
      assert rest != [] ==> ([cs[0]] + rest)[..|rest|] == [cs[0]] + rest[..|rest| - 1];
      [cs[0]] + rest
  }

  /** Before the first final chunk nothing is cut off. */
  lemma {:induction false} UpToFinalAppend(a: seq<Chunk>, b: seq<Chunk>)
    requires NoFinal(a)
    ensures UpToFinal(a + b) == a + UpToFinal(b)
    decreases |a|
  {
    if a == [] {
      assert a + b == b;
    } else {
      var ab := a + b;
      assert ab[0] == a[0] && !a[0].isFinal;
      assert ab[1..] == a[1..] + b;
      assert NoFinal(a[1..]);
      UpToFinalAppend(a[1..], b);
      assert UpToFinal(ab) == [a[0]] + UpToFinal(ab[1..]);
      assert [a[0]] + (a[1..] + UpToFinal(b)) == a + UpToFinal(b);
    }
  }

  /** Once a final chunk has been seen, what follows it is never consumed. */
  lemma {:induction false} UpToFinalIgnoresTail(a: seq<Chunk>, b: seq<Chunk>)
    requires !NoFinal(a)
    ensures UpToFinal(a + b) == UpToFinal(a)
    decreases |a|
  {
    assert a != [];
    assert (a + b)[0] == a[0];
    if !a[0].isFinal {
      assert (a + b)[1..] == a[1..] + b;
      assert !NoFinal(a[1..]) by {
        var i :| 0 <= i < |a| && a[i].isFinal;
        assert a[1..][i - 1] == a[i];
      }
      UpToFinalIgnoresTail(a[1..], b);
    }
  }

  /** The consumed chunks of `cs[i..]` when `cs[..i]` held no final chunk. */
  lemma UpToFinalFrom(cs: seq<Chunk>, i: nat)
    requires i <= |cs| && NoFinal(cs[..i])
    ensures UpToFinal(cs) == cs[..i] + UpToFinal(cs[i..])
  {
    assert cs == cs[..i] + cs[i..];
    UpToFinalAppend(cs[..i], cs[i..]);
  }

  /** Where the chunk at `n - 1` is the first final one, exactly the first `n`
      chunks are consumed. */
  lemma UpToFinalAt(cs: seq<Chunk>, n: nat)
    requires 0 < n <= |cs| && NoFinal(cs[..n - 1]) && cs[n - 1].isFinal
    ensures UpToFinal(cs) == cs[..n]
  {
    UpToFinalFrom(cs, n - 1);
    assert cs[n - 1..][0] == cs[n - 1];
    assert UpToFinal(cs[n - 1..]) == [cs[n - 1]];
    assert cs[..n - 1] + [cs[n - 1]] == cs[..n];
  }

  /** Without a final chunk, every chunk is consumed. */
  lemma UpToFinalNone(cs: seq<Chunk>)
    requires NoFinal(cs)
    ensures UpToFinal(cs) == cs
  {
  }
}
