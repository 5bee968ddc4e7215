/** The HTTP side, kept abstract: a reply is a status code, a body and the
    cookies it sets; `iter_content(size)` on a reply whose body is already
    read hands out the body in slices of `size` bytes. */
module Transport {
  import opened Bytes

  datatype Response = Response(status: int, body: seq<byte>, setCookies: set<string>)

  /** The bytes of the chunks, one chunk after the other. */
  function Concat(chunks: seq<seq<byte>>): seq<byte>
  {
    if chunks == [] then [] else chunks[0] + Concat(chunks[1..])
  }

  lemma {:induction false} ConcatAppend(a: seq<seq<byte>>, b: seq<seq<byte>>)
    ensures Concat(a + b) == Concat(a) + Concat(b)
  {
    if a == [] {
      assert a + b == b;
    } else {
      assert (a + b)[1..] == a[1..] + b;
      ConcatAppend(a[1..], b);
    }
  }

  /** Appending one chunk appends its bytes. */
  lemma ConcatSnoc(chunks: seq<seq<byte>>, c: seq<byte>)
    ensures Concat(chunks + [c]) == Concat(chunks) + c
  {
    ConcatAppend(chunks, [c]);
    assert Concat([c]) == c + Concat([]);
  }

  /** The slices `iter_content(size)` yields: consecutive non-empty pieces of
      at most `size` bytes that together give back the body, in order. */
  function IterContent(body: seq<byte>, size: nat): (chunks: seq<seq<byte>>)
    requires size > 0
    ensures Concat(chunks) == body
    ensures forall k :: 0 <= k < |chunks| ==> 0 < |chunks[k]| <= size
    ensures forall k :: 0 <= k < |chunks| - 1 ==> |chunks[k]| == size
    decreases |body|
  {
    if body == [] then []
    else if |body| <= size then [body]
    else
      var rest := IterContent(body[size..], size);
      assert Concat([body[..size]] + rest) == body[..size] + Concat(rest);
      [body[..size]] + rest
  }
}
