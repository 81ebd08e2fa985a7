/** The chunked response reader: packages/node/src/reqresp/utils/bufferedSource.ts and the readers of
    packages/node/src/reqresp/encoders/responseDecode.ts. */
module BufferedSources {
  import opened Wrappers
  import opened ErrorMessages

  type Chunk = seq<byte>

  const CONTEXT_BYTES_FORK_DIGEST_LENGTH := 4

  /** The bytes of a list of chunks, in order. */
  function Joined(chunks: seq<Chunk>): seq<byte> {
    if chunks == [] then [] else chunks[0] + Joined(chunks[1..])
  }

  /** Cuts a stream into chunks of the given sizes; what they leave over is the last chunk. */
  function Cut(stream: seq<byte>, sizes: seq<nat>): seq<Chunk> {
    if stream == [] then []
    else if sizes == [] || sizes[0] == 0 || sizes[0] >= |stream| then [stream]
    else [stream[..sizes[0]]] + Cut(stream[sizes[0]..], sizes[1..])
  }

  /** However a stream is cut, the pieces are non-empty and join to the same stream. */
  lemma {:induction false} CutsJoinBack(stream: seq<byte>, sizes: seq<nat>)
    ensures Joined(Cut(stream, sizes)) == stream
    ensures forall i :: 0 <= i < |Cut(stream, sizes)| ==> Cut(stream, sizes)[i] != []
    decreases |sizes|
  {
    if stream != [] && sizes != [] && 0 < sizes[0] < |stream| {
      var n := sizes[0];
      CutsJoinBack(stream[n..], sizes[1..]);
      assert ([stream[..n]] + Cut(stream[n..], sizes[1..]))[1..] == Cut(stream[n..], sizes[1..]);
    } else if stream != [] {
      assert [stream][1..] == [];
    }
  }

  /** Every list of non-empty chunks is such a cut of its bytes. */
  lemma {:induction false} ChunksAreCuts(chunks: seq<Chunk>)
    requires forall i :: 0 <= i < |chunks| ==> chunks[i] != []
    ensures Cut(Joined(chunks), seq(|chunks|, i requires 0 <= i < |chunks| => |chunks[i]|)) == chunks
  {
    var sizes := seq(|chunks|, i requires 0 <= i < |chunks| => |chunks[i]|);
    if |chunks| == 1 {
      assert Joined(chunks) == chunks[0] + Joined(chunks[1..]) == chunks[0];
    } else if chunks != [] {
      var rest := chunks[1..];
      ChunksAreCuts(rest);
      assert sizes[1..] == seq(|rest|, i requires 0 <= i < |rest| => |rest[i]|);
      assert Joined(rest) == rest[0] + Joined(rest[1..]);
      assert Joined(chunks)[..|chunks[0]|] == chunks[0] && Joined(chunks)[|chunks[0]|..] == Joined(rest);
    }
  }

  /** Wraps a chunk stream so that several consumers can take turns reading it. `source` is what the
      wrapped generator has yet to yield. */
  class BufferedSource {
    var isDone: bool
    var buffer: seq<byte>
    var source: seq<Chunk>

    constructor (chunks: seq<Chunk>)
      ensures !isDone && buffer == [] && source == chunks
    {
      isDone, buffer, source := false, [], chunks;
    }

    /** Everything not yet consumed: buffered bytes, then bytes still to come. */
    ghost function Stream(): seq<byte>
      reads this
    {
      buffer + Joined(source)
    }

    /** No chunk still to come is empty. */
    ghost predicate NoEmptyChunks()
      reads this
    {
      forall i :: 0 <= i < |source| ==> source[i] != []
    }

    /** `buffer.consume(n)`. */
    method Consume(n: nat)
      requires n <= |buffer|
      modifies this`buffer
      ensures buffer == old(buffer)[n..] && Stream() == old(Stream())[n..]
    {
      buffer := buffer[n..];
      assert old(Stream())[n..] == buffer + Joined(source);
    }
  }

  /** One `for await` loop's iterator over a buffered source. */
  class BufferedIterator {
    const that: BufferedSource
    var firstNext: bool

    constructor (that: BufferedSource)
      ensures this.that == that && firstNext
    {
      this.that := that;
      firstNext := true;
    }

    /** The first call that finds bytes in the buffer answers them as they are, be they left by an earlier
        consumer or fetched by an earlier call; every other call fetches a chunk. Answers whether there
        is anything to read; the stream itself never changes. */
    method Next() returns (more: bool)
      modifies this, that
      ensures that.Stream() == old(that.Stream())
      ensures old(that.NoEmptyChunks()) ==> that.NoEmptyChunks()
      ensures if old(firstNext) && old(that.buffer) != [] then
                more && !firstNext && that.buffer == old(that.buffer) && that.source == old(that.source)
                && that.isDone == old(that.isDone)
              else if old(that.source) == [] then
                !more && that.isDone && that.buffer == old(that.buffer) && that.source == []
                && firstNext == old(firstNext)
              else
                more && firstNext == old(firstNext) && that.isDone == old(that.isDone)
                && that.buffer == old(that.buffer) + old(that.source)[0] && that.source == old(that.source)[1..]
    {
      if firstNext && that.buffer != [] {
        firstNext := false;
        return true;
      }
      if that.source == [] {
        that.isDone := true;
        return false;
      }
      assert that.buffer + that.source[0] + Joined(that.source[1..]) == that.Stream();
      that.buffer := that.buffer + that.source[0];
      that.source := that.source[1..];
      return true;
    }
  }

  datatype HeaderStatus = Status(code: byte) | Ended

  /** The result byte. `buffer.get(0)` throws when the chunk just fetched is empty. */
  method ReadResultHeader(s: BufferedSource) returns (r: Result<HeaderStatus, string>)
    modifies s
    ensures r.Failure? <==> old(s.buffer) == [] && old(s.source) != [] && old(s.source)[0] == []
    ensures r.Success? ==>
              if old(s.Stream()) == [] then r.value == Ended && s.isDone && s.Stream() == []
              else r.value == Status(old(s.Stream())[0]) && s.Stream() == old(s.Stream())[1..]
    ensures r.Failure? ==> s.Stream() == old(s.Stream())
    ensures old(s.NoEmptyChunks()) ==> s.NoEmptyChunks() && r.Success?
  {
    var it := new BufferedIterator(s);
    var more := it.Next();
    if !more {
      return Success(Ended);
    }
    if s.buffer == [] {
      return Failure("index is out of bounds");
    }
    var status := s.buffer[0];
    s.Consume(1);
    return Success(Status(status));
  }

  /** An error message: the printable among the first 256 bytes of the stream, or all there are. They are read
      without being consumed. */
  method ReadErrorMessage(s: BufferedSource) returns (message: string)
    modifies s
    ensures message == PrintableBytes(FirstBytes(old(s.Stream()), 256))
    ensures s.Stream() == old(s.Stream())
    ensures old(s.NoEmptyChunks()) ==> s.NoEmptyChunks()
  {
    var it := new BufferedIterator(s);
    var length: Option<nat> := None;
    var more := it.Next();
    while more
      invariant it.that == s && s.Stream() == old(s.Stream())
      invariant old(s.NoEmptyChunks()) ==> s.NoEmptyChunks()
      invariant length.Some? ==> length.value <= |s.buffer|
      invariant !more ==> s.source == [] && (length.None? ==> s.buffer == [])
      invariant !more && length.Some? ==> length.value == |s.buffer| < MAX_ERROR_MESSAGE_LENGTH
      decreases |s.source|, if it.firstNext then 1 else 0, if more then 1 else 0
    {
      if |s.buffer| >= MAX_ERROR_MESSAGE_LENGTH {
        length := Some(MAX_ERROR_MESSAGE_LENGTH);
        break;
      }
      length := Some(|s.buffer|);
      more := it.Next();
    }
    var bytes := match length case None => s.buffer case Some(n) => s.buffer[..n];
    assert bytes == FirstBytes(old(s.Stream()), MAX_ERROR_MESSAGE_LENGTH);
    message := DecodeErrorMessage(bytes);
    assert FirstBytes(bytes, MAX_ERROR_MESSAGE_LENGTH) == bytes;
    DecodingKeepsPrintableBytes(bytes);
  }

  /** The four context bytes, consumed; a failure when fewer are left. */
  method ReadContextBytesForkDigest(s: BufferedSource) returns (r: Result<seq<byte>, string>)
    modifies s
    ensures r.Success? <==> |old(s.Stream())| >= 4
    ensures r.Success? ==> r.value + s.Stream() == old(s.Stream()) && |r.value| == 4
    ensures r.Failure? ==> s.Stream() == old(s.Stream()) && s.isDone
    ensures old(s.NoEmptyChunks()) ==> s.NoEmptyChunks()
  {
    var it := new BufferedIterator(s);
    var more := it.Next();
    while more
      invariant it.that == s && s.Stream() == old(s.Stream())
      invariant old(s.NoEmptyChunks()) ==> s.NoEmptyChunks()
      invariant !more ==> s.source == [] && s.isDone && |s.buffer| < CONTEXT_BYTES_FORK_DIGEST_LENGTH
      decreases |s.source|, if it.firstNext then 1 else 0, if more then 1 else 0
    {
      if |s.buffer| >= CONTEXT_BYTES_FORK_DIGEST_LENGTH {
        var bytes := s.buffer[..CONTEXT_BYTES_FORK_DIGEST_LENGTH];
        s.Consume(CONTEXT_BYTES_FORK_DIGEST_LENGTH);
        assert bytes == old(s.Stream())[..CONTEXT_BYTES_FORK_DIGEST_LENGTH];
        return Success(bytes);
      }
      more := it.Next();
    }
    return Failure("Source ended while reading context bytes");
  }
}
