/**
 Streaming a stored file to the client. A file handle may return fewer bytes than asked for, in any
 pattern; the filesystem backend seeks to the start of a range and leaves its end to the streamer,
 the object store returns exactly the range it was asked for.
 */
module Download {
  import opened Common
  import opened Decimal
  import opened ByteRange

  newtype Byte = x: int | 0 <= x < 256

  type Bytes = seq<Byte>

  function Flatten(chunks: seq<Bytes>): Bytes {
    if chunks == [] then [] else Flatten(chunks[..|chunks| - 1]) + chunks[|chunks| - 1]
  }

  /** What a stream over these bytes delivers under a limit. */
  function Limited(bytes: Bytes, limit: Option<int>): Bytes {
    if limit.None? then bytes
    else if limit.value <= 0 then []
    else if limit.value >= |bytes| then bytes
    else bytes[..limit.value]
  }

  lemma FlattenAppend(chunks: seq<Bytes>, chunk: Bytes)
    ensures Flatten(chunks + [chunk]) == Flatten(chunks) + chunk
  {
    assert (chunks + [chunk])[..|chunks|] == chunks;
  }

  /** Between two reads: what was sent and what is left make up the file, and the limit counts down. */
  predicate Progress(all: Bytes, sent: Bytes, rest: Bytes, limit: Option<int>, remaining: Option<int>) {
    && sent + rest == all
    && match limit
       case None => remaining.None?
       case Some(n) => remaining == Some(n - |sent|) && (sent != [] ==> |sent| <= n)
  }

  lemma ReadingProgresses(all: Bytes, sent: Bytes, rest: Bytes, limit: Option<int>, remaining: Option<int>,
                          chunk: Bytes, left: Bytes)
    requires Progress(all, sent, rest, limit, remaining) && chunk + left == rest
    requires chunk != [] && (remaining.Some? ==> |chunk| <= remaining.value)
    ensures Progress(all, sent + chunk, left, limit, if remaining.Some? then Some(remaining.value - |chunk|) else None)
  {
    assert sent + (chunk + left) == sent + chunk + left;
  }

  /** Stopping at the limit or at the end of the file delivers what the limit allows. */
  lemma StoppingIsComplete(all: Bytes, sent: Bytes, rest: Bytes, limit: Option<int>, remaining: Option<int>)
    requires Progress(all, sent, rest, limit, remaining)
    requires rest == [] || (remaining.Some? && remaining.value <= 0)
    ensures sent == Limited(all, limit)
  {
    assert sent == all[..|sent|];
  }

  class FileHandle {
    const data: Bytes
    var position: nat
    var closed: bool

    /** How many bytes the next reads hand out at most; an exhausted plan reads in full. */
    var plan: seq<nat>

    constructor (data: Bytes, plan: seq<nat>)
      ensures this.data == data && position == 0 && !closed
    {
      this.data, position, closed, this.plan := data, 0, false, plan;
    }

    /** The bytes not yet read; seeking past the end leaves none. */
    ghost function Rest(): Bytes
      reads this
    {
      if position <= |data| then data[position..] else []
    }

    method Seek(offset: nat)
      modifies this`position
      ensures position == offset
    {
      position := offset;
    }

    method Read(size: nat) returns (chunk: Bytes)
      requires !closed
      modifies this`position, this`plan
      ensures |chunk| <= size && chunk + Rest() == old(Rest())
      ensures size > 0 && chunk == [] ==> old(Rest()) == []
    {
      if size == 0 || position >= |data| {
        return [];
      }
      var count := if size < |data| - position then size else |data| - position;
      if plan != [] {
        if 0 < plan[0] < count {
          count := plan[0];
        }
        plan := plan[1..];
      }
      chunk := data[position..position + count];
      position := position + count;
    }

    method Close()
      modifies this`closed
      ensures closed
    {
      closed := true;
    }
  }

  /** The streamer: reads of at most a chunk, never past the limit, and the handle ends up closed. */
  method IterChunks(file: FileHandle, limit: Option<int>, chunkSize: nat) returns (chunks: seq<Bytes>)
    requires chunkSize > 0 && !file.closed
    modifies file
    ensures file.closed
    ensures Flatten(chunks) == Limited(old(file.Rest()), limit)
    ensures forall c :: c in chunks ==> 0 < |c| <= chunkSize
  {
    chunks := [];
    var remaining := limit;
    ghost var all := file.Rest();
    while true
      invariant !file.closed
      invariant Progress(all, Flatten(chunks), file.Rest(), limit, remaining)
      invariant forall c :: c in chunks ==> 0 < |c| <= chunkSize
      decreases |file.Rest()|
    {
      hide Limited, Flatten, Progress;
      ghost var sent, rest := Flatten(chunks), file.Rest();
      var readSize := chunkSize;
      if remaining.Some? {
        if remaining.value <= 0 {
          break;
        }
        readSize := if remaining.value < readSize then remaining.value else readSize;
      }
      var chunk := file.Read(readSize);
      if chunk == [] {
        break;
      }
      ReadingProgresses(all, sent, rest, limit, remaining, chunk, file.Rest());
      FlattenAppend(chunks, chunk);
      assert |file.Rest()| < |rest|;
      chunks := chunks + [chunk];
      if remaining.Some? {
        remaining := Some(remaining.value - |chunk|);
      }
    }
    StoppingIsComplete(all, Flatten(chunks), file.Rest(), limit, remaining);
    file.Close();
  }

  // ----- The two backends -----

  datatype Backend = Filesystem | ObjectStore

  /** The handle a backend opens for a range of a blob. */
  method OpenBlob(backend: Backend, blob: Bytes, range: Option<(nat, nat)>, plan: seq<nat>) returns (file: FileHandle)
    requires range.Some? ==> range.value.0 <= range.value.1 < |blob|
    ensures fresh(file) && !file.closed
    ensures range.None? ==> file.Rest() == blob
    ensures range.Some? && backend == Filesystem ==> file.Rest() == blob[range.value.0..]
    ensures range.Some? && backend == ObjectStore ==> file.Rest() == blob[range.value.0..range.value.1 + 1]
  {
    match backend
    case Filesystem =>
      file := new FileHandle(blob, plan);
      if range.Some? {
        file.Seek(range.value.0);
      }
    case ObjectStore =>
      if range.Some? {
        file := new FileHandle(blob[range.value.0..range.value.1 + 1], plan);
      } else {
        file := new FileHandle(blob, plan);
      }
  }

  lemma LimitOfAll(blob: Bytes)
    ensures Limited(blob, Some(|blob|)) == blob
  {
  }

  lemma SliceOfTail(blob: Bytes, first: nat, last: nat)
    requires first <= last < |blob|
    ensures Limited(blob[first..], Some(last - first + 1)) == blob[first..last + 1]
    ensures Limited(blob[first..last + 1], Some(last - first + 1)) == blob[first..last + 1]
  {
  }

  // ----- The response -----

  datatype Response =
    | Full(contentLength: string, chunks: seq<Bytes>)
    | Partial(contentLength: string, contentRange: string, chunks: seq<Bytes>)
    | RangeNotSatisfiable(contentRange: string)
    | ServerError

  method SendPart(backend: Backend, blob: Bytes, first: nat, last: nat, chunkSize: nat, plan: seq<nat>) returns (response: Response)
    requires first <= last < |blob| && chunkSize > 0
    ensures response.Partial? && Flatten(response.chunks) == blob[first..last + 1]
    ensures response.contentLength == Text(|Flatten(response.chunks)|)
    ensures response.contentRange == ContentRange(first, last, |blob|)
  {
    hide Text, ContentRange, Flatten, Limited;
    var file := OpenBlob(backend, blob, Some((first, last)), plan);
    var length := last - first + 1;
    SliceOfTail(blob, first, last);
    var chunks := IterChunks(file, Some(length), chunkSize);
    response := Partial(Text(length), ContentRange(first, last, |blob|), chunks);
  }

  /**
   For every non-empty blob of the recorded size and every header: the client gets the whole blob or
   exactly the parsed slice, Content-Length counts the bytes sent and Content-Range names the slice.
   Backend, chunk size and read pattern do not occur in what is promised.
   */
  method DownloadAttachment(backend: Backend, blob: Bytes, header: Option<string>, chunkSize: nat, plan: seq<nat>)
    returns (response: Response)
    requires blob != [] && chunkSize > 0
    ensures
      match ParseRangeHeader(header, |blob|)
      case Whole =>
        response.Full? && Flatten(response.chunks) == blob && response.contentLength == Text(|blob|)
      case Part(first, last) =>
        && 0 <= first <= last < |blob|
        && response.Partial?
        && Flatten(response.chunks) == blob[first..last + 1]
        && response.contentLength == Text(|Flatten(response.chunks)|)
        && response.contentRange == ContentRange(first, last, |blob|)
      case NotSatisfiable =>
        response == RangeNotSatisfiable("bytes */" + Text(|blob|))
      case OversizedNumeral =>
        response == ServerError
  {
    hide ParseRangeHeader, Text, ContentRange, Flatten, Limited;
    var outcome := ParseRangeHeader(header, |blob|);
    match outcome
    case NotSatisfiable =>
      response := RangeNotSatisfiable("bytes */" + Text(|blob|));
    case OversizedNumeral =>
      response := ServerError;
    case Whole =>
      var file := OpenBlob(backend, blob, None, plan);
      LimitOfAll(blob);
      var chunks := IterChunks(file, Some(|blob|), chunkSize);
      response := Full(Text(|blob|), chunks);
    case Part(first, last) =>
      PartsAreInBounds(header, |blob|);
      response := SendPart(backend, blob, first, last, chunkSize, plan);
  }
}
