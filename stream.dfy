/** What the transport hands `sendMessage`: the fetch outcome and a pull reader over the
    body's chunks, each already decoded to text. */
module Stream {
  import opened Wrappers

  /** How the body stream ends once its chunks are read. */
  datatype Ending = Completes | Breaks

  /** The outcome of the POST: the fetch itself rejects, the response has no body, or the
      body yields `chunks` and then ends as `ending` says. */
  datatype Response = FetchFails | NoBody | Body(chunks: seq<Option<string>>, ending: Ending)

  /** One `reader.read()`: a chunk (its value possibly absent), `done`, or a rejection. */
  datatype ReadResult = Chunk(value: Option<string>) | Done | Rejected

  /** The reader `getReader()` returns: each read pulls the next chunk, then the ending. */
  class Reader {
    const chunks: seq<Option<string>>
    const ending: Ending
    var pos: nat

    constructor (chunks: seq<Option<string>>, ending: Ending)
      ensures this.chunks == chunks && this.ending == ending && pos == 0
    {
      this.chunks := chunks;
      this.ending := ending;
      pos := 0;
    }

    /** What read number `i` (from 0) yields: a chunk while any remain, then the ending. */
    function At(i: nat): (r: ReadResult)
      requires i <= |chunks|
      ensures r.Chunk? <==> i < |chunks|
      ensures i < |chunks| ==> r == Chunk(chunks[i])
      ensures i == |chunks| ==> (r.Done? <==> ending == Completes)
    {
      if i < |chunks| then Chunk(chunks[i])
      else if ending == Completes then Done
      else Rejected
    }

    /** Pulls the next result; reading past the ending is not allowed. */
    method Read() returns (r: ReadResult)
      requires pos <= |chunks|
      modifies this
      ensures pos == old(pos) + 1 && r == At(old(pos))
    {
      r := At(pos);
      pos := pos + 1;
    }
  }
}
