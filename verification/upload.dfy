/** The `/api/upload` handler of server.js: it collects the request's data
    chunks as they arrive and answers only when the stream ends or fails.
    The stream is a sequence of events; the model consumes them up to the
    first `End` or `Error`, and events after that are outside it. */
module Upload {
  import opened Options
  import opened Server

  newtype byte = x: int | 0 <= x < 256

  type Chunk = seq<byte>

  /** What the request stream emits: a chunk, its end, or a failure. */
  datatype Event = Data(chunk: Chunk) | End | Error

  /** The handler's state: still collecting (the `dataChunks` array), or
      answered, with the concatenated body when one was built. */
  datatype Collector =
    | Collecting(dataChunks: seq<Chunk>)
    | Responded(response: Response, completeBody: Option<seq<byte>>)

  /** `Buffer.concat`: the chunks joined in order. */
  function Concat(chunks: seq<Chunk>): seq<byte> {
    if chunks == [] then [] else chunks[0] + Concat(chunks[1..])
  }

  /** The sum of the chunk lengths. */
  function TotalLength(chunks: seq<Chunk>): nat {
    if chunks == [] then 0 else |chunks[0]| + TotalLength(chunks[1..])
  }

  /** The joined body is as long as all chunks together. */
  lemma {:induction false} ConcatLength(chunks: seq<Chunk>)
    ensures |Concat(chunks)| == TotalLength(chunks)
  {
    if chunks != [] {
      ConcatLength(chunks[1..]);
    }
  }

  /** Pushing a chunk appends its bytes after everything already received. */
  lemma {:induction false} ConcatPush(chunks: seq<Chunk>, c: Chunk)
    ensures Concat(chunks + [c]) == Concat(chunks) + c
  {
    if chunks != [] {
      assert (chunks + [c])[1..] == chunks[1..] + [c];
      ConcatPush(chunks[1..], c);
    }
  }

  /** The 'error' listener's answer. */
  const StreamFailed: Response := Response(500, false, Message("Upload stream error"))

  /** The 'end' listener: join the chunks and acknowledge with 200 and
      `no-store`. Joining throws when the total exceeds `maxLength`, the
      largest buffer the runtime can allocate, and the catch answers 500. */
  function OnEnd(dataChunks: seq<Chunk>, maxLength: nat): (c: Collector)
    ensures c.Responded?
    ensures c.response.status == 200 <==> TotalLength(dataChunks) <= maxLength
    ensures c.response.status == 200 ==>
              && c.response == Response(200, true, Message("OK"))
              && c.completeBody == Some(Concat(dataChunks))
              && |c.completeBody.value| == TotalLength(dataChunks)
    ensures c.response.status != 200 ==>
              c == Responded(Response(500, false, Message("Error processing upload")), None)
  {
    ConcatLength(dataChunks);
    var completeBody := Concat(dataChunks);
    if |completeBody| > maxLength then
      Responded(Response(500, false, Message("Error processing upload")), None)
    else
      Responded(SendOk(true), Some(completeBody))
  }

  /** Feeds `events` to a handler that has collected `dataChunks` so far,
      stopping at the first `End` or `Error`. */
  function Collect(dataChunks: seq<Chunk>, events: seq<Event>, maxLength: nat): Collector
    decreases |events|
  {
    if events == [] then Collecting(dataChunks)
    else match events[0]
      case Data(c) => Collect(dataChunks + [c], events[1..], maxLength)
      case End => OnEnd(dataChunks, maxLength)
      case Error => Responded(StreamFailed, None)
  }

  /** The handler over one request's events. */
  function HandleUpload(events: seq<Event>, maxLength: nat): Collector {
    Collect([], events, maxLength)
  }

  /** The data events carrying `chunks`, in order. */
  function DataEvents(chunks: seq<Chunk>): (es: seq<Event>)
    ensures |es| == |chunks|
    ensures forall i | 0 <= i < |es| :: es[i] == Data(chunks[i])
  {
    if chunks == [] then [] else [Data(chunks[0])] + DataEvents(chunks[1..])
  }

  /** One data event pushes its chunk and answers nothing. */
  lemma CollectStep(dataChunks: seq<Chunk>, c: Chunk, tail: seq<Event>, maxLength: nat)
    ensures Collect(dataChunks, [Data(c)] + tail, maxLength) == Collect(dataChunks + [c], tail, maxLength)
  {
    assert ([Data(c)] + tail)[1..] == tail;
  }

  lemma EventsSplit(chunks: seq<Chunk>, rest: seq<Event>)
    requires chunks != []
    ensures DataEvents(chunks) + rest == [Data(chunks[0])] + (DataEvents(chunks[1..]) + rest)
  {
    assert DataEvents(chunks) == [Data(chunks[0])] + DataEvents(chunks[1..]);
  }

  lemma ChunksSplit(dataChunks: seq<Chunk>, chunks: seq<Chunk>)
    requires chunks != []
    ensures dataChunks + [chunks[0]] + chunks[1..] == dataChunks + chunks
  {
    assert [chunks[0]] + chunks[1..] == chunks;
  }

  /** Data events only ever push: nothing is answered while they arrive, and
      the chunks are kept in arrival order. */
  lemma {:induction false} CollectData(dataChunks: seq<Chunk>, chunks: seq<Chunk>,
                                       rest: seq<Event>, maxLength: nat)
    ensures Collect(dataChunks, DataEvents(chunks) + rest, maxLength)
         == Collect(dataChunks + chunks, rest, maxLength)
    decreases |chunks|
  {
    if chunks == [] {
      assert DataEvents(chunks) + rest == rest;
      assert dataChunks + chunks == dataChunks;
    } else {
      EventsSplit(chunks, rest);
      CollectStep(dataChunks, chunks[0], DataEvents(chunks[1..]) + rest, maxLength);
      CollectData(dataChunks + [chunks[0]], chunks[1..], rest, maxLength);
      ChunksSplit(dataChunks, chunks);
    }
  }

  /** A stream of data events alone gets no answer. */
  lemma NoAnswerBeforeEnd(chunks: seq<Chunk>, maxLength: nat)
    ensures HandleUpload(DataEvents(chunks), maxLength) == Collecting(chunks)
  {
    CollectData([], chunks, [], maxLength);
    assert DataEvents(chunks) + [] == DataEvents(chunks);
    assert [] + chunks == chunks;
  }

  /** A stream that ends is acknowledged with 200 and `no-store`, after its
      chunks have been joined in arrival order; the body's length is the sum
      of the chunk lengths. */
  lemma AcknowledgedAtEnd(chunks: seq<Chunk>, maxLength: nat)
    requires TotalLength(chunks) <= maxLength
    ensures var c := HandleUpload(DataEvents(chunks) + [End], maxLength);
      && c == Responded(Response(200, true, Message("OK")), Some(Concat(chunks)))
      && |c.completeBody.value| == TotalLength(chunks)
  {
    CollectData([], chunks, [End], maxLength);
    assert [] + chunks == chunks;
    ConcatLength(chunks);
  }

  /** A stream with no data still ends in 200, with an empty body. */
  lemma EmptyUploadAcknowledged(maxLength: nat)
    ensures HandleUpload([End], maxLength) == Responded(Response(200, true, Message("OK")), Some([]))
  {
  }

  /** A stream that fails gets 500 "Upload stream error", never a 200. */
  lemma StreamErrorAnswered(chunks: seq<Chunk>, maxLength: nat)
    ensures HandleUpload(DataEvents(chunks) + [Error], maxLength) == Responded(StreamFailed, None)
  {
    CollectData([], chunks, [Error], maxLength);
  }

  /** The first event that is not data is at index `k`, and it is `e`. */
  ghost predicate FirstTerminal(events: seq<Event>, k: nat, e: Event) {
    && k < |events|
    && events[k] == e
    && forall j | 0 <= j < k :: events[j].Data?
  }

  /** Whatever the events, a 200 is only ever sent once the stream has ended,
      and a stream whose first non-data event is `Error` is answered 500. */
  lemma {:induction false} AcknowledgedOnlyAfterEnd(dataChunks: seq<Chunk>, events: seq<Event>, maxLength: nat)
    ensures var c := Collect(dataChunks, events, maxLength);
      && (c.Responded? && c.response.status == 200 ==> exists k: nat :: FirstTerminal(events, k, End))
      && (c.Collecting? <==> forall j | 0 <= j < |events| :: events[j].Data?)
      && (forall k: nat :: FirstTerminal(events, k, Error) ==> c == Responded(StreamFailed, None))
    decreases |events|
  {
    if events != [] {
      match events[0]
      case Data(chunk) => {
        AcknowledgedOnlyAfterEnd(dataChunks + [chunk], events[1..], maxLength);
        var c := Collect(dataChunks, events, maxLength);
        if c.Responded? && c.response.status == 200 {
          var k: nat :| FirstTerminal(events[1..], k, End);
          assert FirstTerminal(events, k + 1, End);
        }
        if forall j | 0 <= j < |events[1..]| :: events[1..][j].Data? {
          forall j | 0 <= j < |events| ensures events[j].Data? {
            if j > 0 {
              assert events[j] == events[1..][j - 1];
            }
          }
        }
        forall k: nat | FirstTerminal(events, k, Error)
          ensures c == Responded(StreamFailed, None)
        {
          assert FirstTerminal(events[1..], k - 1, Error);
        }
      }
      case End => {
        assert FirstTerminal(events, 0, End);
        forall k: nat | FirstTerminal(events, k, Error) ensures false {}
      }
      case Error => {
        forall k: nat | FirstTerminal(events, k, End) ensures false {}
      }
    }
  }

  /** The handler as a loop over the event stream, holding the chunks
      received so far; it answers exactly as the fold does. */
  method CollectLoop(events: seq<Event>, maxLength: nat) returns (c: Collector)
    ensures c == HandleUpload(events, maxLength)
  {
    var dataChunks: seq<Chunk> := [];
    var i := 0;
    while i < |events|
      invariant 0 <= i <= |events|
      invariant Collect([], events, maxLength) == Collect(dataChunks, events[i..], maxLength)
    {
      match events[i]
      case Data(chunk) => {
        assert events[i..][1..] == events[i + 1..];
        dataChunks := dataChunks + [chunk];
        i := i + 1;
      }
      case End => {
        c := OnEnd(dataChunks, maxLength);
        return;
      }
      case Error => {
        c := Responded(StreamFailed, None);
        return;
      }
    }
    c := Collecting(dataChunks);
  }
}
