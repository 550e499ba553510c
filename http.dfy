/**
 * The parts of an HTTP response `download_file` reads: the
 * Content-Disposition and Content-Length headers and the body as the chunks
 * `iter_content` yields.
 */
module Http {
  import opened Wrappers

  /** The Content-Length header: absent, a number `int()` accepts, or text it rejects. */
  datatype LengthHeader = Absent | Length(n: int) | Malformed

  datatype Response = Response(disposition: Option<string>, length: LengthHeader, chunks: seq<seq<bv8>>)

  /** The body: the chunks joined in order. */
  function Body(chunks: seq<seq<bv8>>): (b: seq<bv8>)
    ensures |b| == Total(chunks)
  {
    if |chunks| == 0 then [] else Body(chunks[..|chunks| - 1]) + chunks[|chunks| - 1]
  }

  /** The sum of the chunk sizes. */
  function Total(chunks: seq<seq<bv8>>): nat {
    if |chunks| == 0 then 0 else Total(chunks[..|chunks| - 1]) + |chunks[|chunks| - 1]|
  }

  /** The sum of a list of amounts. */
  function Sum(amounts: seq<int>): int {
    if |amounts| == 0 then 0 else Sum(amounts[..|amounts| - 1]) + amounts[|amounts| - 1]
  }
}
