/**
 * The two callbacks through which cairo writes to and reads from a Python
 * file-like object: `_write_func` for PDF/PS/SVG output and PNG writing,
 * `_read_func` for PNG reading. Both turn a Python failure into a cairo
 * status instead of raising across cairo.
 *
 * The Python object is an in-memory file whose method either works, raises,
 * or (for `read`) returns something that is not a string. Only the uses cairo
 * makes of it are modelled: sequential writes, which always land at the end,
 * and sequential reads from the current position.
 */
module CairoStreams {
  import opened CairoSurface
  import Seqs

  newtype byte = x: int | 0 <= x < 256

  /** An in-memory file: its contents and the read position. Writes only append. */
  datatype MemoryFile = MemoryFile(data: seq<byte>, pos: nat)

  /** An object with a `write` method; when `raises`, every call raises. */
  datatype Sink = Sink(io: MemoryFile, raises: bool)

  /** How the object's `read` method behaves. */
  datatype ReadReply = ReturnsString | ReturnsNonString | Raises

  /** An object with a `read` method. */
  datatype Source = Source(io: MemoryFile, reply: ReadReply)

  datatype WriteOutcome = WriteOutcome(status: Status, sink: Sink)

  /**
   * `_write_func(closure, data, length)`: `closure.write(data[:length])`;
   * WRITE_ERROR if it raised, SUCCESS otherwise.
   */
  function WriteFunc(sink: Sink, data: seq<byte>, length: nat): (r: WriteOutcome)
    requires length <= |data|
    ensures r.status == WriteError <==> sink.raises
    ensures r.status == Success <==> !sink.raises
    ensures !sink.raises ==> r.sink.io.data == sink.io.data + data[..length]
    ensures !sink.raises ==> r.sink.raises == sink.raises && r.sink.io.pos == |r.sink.io.data|
    ensures sink.raises ==> r.sink == sink
  {
    if sink.raises then WriteOutcome(WriteError, sink)
    else
      var io := sink.io.(data := sink.io.data + data[..length]);
      WriteOutcome(Success, sink.(io := io.(pos := |io.data|)))
  }

  datatype ReadOutcome = ReadOutcome(status: Status, dest: seq<byte>, source: Source)

  /** What `read(length)` on the source returns when it returns a string holding that many bytes. */
  function MemoryFileRead(io: MemoryFile, length: nat): (r: seq<byte>)
    requires io.pos + length <= |io.data|
    ensures |r| == length
  {
    io.data[io.pos..io.pos + length]
  }

  /**
   * `_read_func(closure, data, length)` with `dest` the `length`-byte buffer
   * cairo passes. The callback never checks how many bytes `read` returned
   * before copying `length` of them, so a string source must hold them.
   */
  function ReadFunc(source: Source, dest: seq<byte>): (r: ReadOutcome)
    requires source.reply.ReturnsString? ==> source.io.pos + |dest| <= |source.io.data|
    ensures r.status == ReadError <==> !source.reply.ReturnsString?
    ensures r.status == Success <==> source.reply.ReturnsString?
    ensures r.status == ReadError ==> r.dest == dest && r.source == source
    ensures r.source.io.data == source.io.data && r.source.reply == source.reply
    ensures r.status == Success ==>
      && |r.dest| == |dest|
      && r.dest == source.io.data[source.io.pos..source.io.pos + |dest|]
      && r.source.io.pos == source.io.pos + |dest|
  {
    match source.reply
    case Raises => ReadOutcome(ReadError, dest, source)
    case ReturnsNonString => ReadOutcome(ReadError, dest, source)
    case ReturnsString =>
      var got := MemoryFileRead(source.io, |dest|);
      ReadOutcome(Success, got, source.(io := source.io.(pos := source.io.pos + |dest|)))
  }

  /** The bytes are copied verbatim: a zero byte in the stream is a zero byte in the buffer. */
  lemma ReadCopiesZeroBytes(source: Source, dest: seq<byte>, k: nat)
    requires source.reply.ReturnsString? && source.io.pos + |dest| <= |source.io.data|
    requires k < |dest| && source.io.data[source.io.pos + k] == 0
    ensures ReadFunc(source, dest).dest[k] == 0
  {
  }

  // ---------------------------------------------------------------------------
  // Writing chunks out and reading them back
  // ---------------------------------------------------------------------------

  /** cairo handing the chunks to the write callback one by one, stopping at the first error. */
  function WriteAll(sink: Sink, chunks: seq<seq<byte>>): (r: WriteOutcome)
    decreases |chunks|
  {
    if |chunks| == 0 then WriteOutcome(Success, sink)
    else
      var first := WriteFunc(sink, chunks[0], |chunks[0]|);
      if first.status != Success then first else WriteAll(first.sink, chunks[1..])
  }

  datatype ReadAllOutcome = ReadAllOutcome(status: Status, chunks: seq<seq<byte>>, source: Source)

  function TotalLength(lengths: seq<nat>): nat {
    if |lengths| == 0 then 0 else lengths[0] + TotalLength(lengths[1..])
  }

  function Lengths(chunks: seq<seq<byte>>): (r: seq<nat>)
    ensures |r| == |chunks|
    ensures forall k :: 0 <= k < |r| ==> r[k] == |chunks[k]|
  {
    if |chunks| == 0 then [] else [|chunks[0]| as nat] + Lengths(chunks[1..])
  }

  /** The zero-filled buffer cairo passes for a read of `n` bytes. */
  function Zeros(n: nat): (b: seq<byte>)
    ensures |b| == n
    ensures forall k :: 0 <= k < n ==> b[k] == 0
  {
    if n == 0 then [] else [0] + Zeros(n - 1)
  }

  /** cairo pulling buffers of the given lengths through the read callback. */
  function ReadAll(source: Source, lengths: seq<nat>): (r: ReadAllOutcome)
    requires source.reply.ReturnsString? ==> source.io.pos + TotalLength(lengths) <= |source.io.data|
    decreases |lengths|
  {
    if |lengths| == 0 then ReadAllOutcome(Success, [], source)
    else
      var first := ReadFunc(source, Zeros(lengths[0]));
      if first.status != Success then ReadAllOutcome(first.status, [], first.source)
      else
        var rest := ReadAll(first.source, lengths[1..]);
        ReadAllOutcome(rest.status, [first.dest] + rest.chunks, rest.source)
  }

  lemma {:induction false} WriteAllAppends(sink: Sink, chunks: seq<seq<byte>>)
    requires !sink.raises
    ensures WriteAll(sink, chunks).status == Success
    ensures WriteAll(sink, chunks).sink.io.data == sink.io.data + Seqs.Concat(chunks)
    ensures !WriteAll(sink, chunks).sink.raises
    decreases |chunks|
  {
    if |chunks| > 0 {
      var first := WriteFunc(sink, chunks[0], |chunks[0]|);
      assert chunks[0][..|chunks[0]|] == chunks[0];
      WriteAllAppends(first.sink, chunks[1..]);
    }
  }

  lemma {:induction false} TotalLengthOfChunks(chunks: seq<seq<byte>>)
    ensures TotalLength(Lengths(chunks)) == |Seqs.Concat(chunks)|
    decreases |chunks|
  {
    if |chunks| > 0 {
      TotalLengthOfChunks(chunks[1..]);
    }
  }

  /** The two halves of a slice that holds `c + tail`. */
  lemma SliceOfConcat(data: seq<byte>, pos: nat, c: seq<byte>, tail: seq<byte>)
    requires pos + |c| + |tail| <= |data|
    requires data[pos..pos + |c| + |tail|] == c + tail
    ensures data[pos..pos + |c|] == c
    ensures data[pos + |c|..pos + |c| + |tail|] == tail
  {
    assert data[pos..pos + |c|] == (c + tail)[..|c|];
    assert data[pos + |c|..pos + |c| + |tail|] == (c + tail)[|c|..];
  }

  lemma TotalLengthCons(n: nat, ls: seq<nat>)
    ensures TotalLength([n] + ls) == n + TotalLength(ls)
  {
    assert ([n] + ls)[1..] == ls;
  }

  /** `ReadAll` over `[n] + ls` after a successful first read of `n` bytes. */
  lemma ReadAllUnfold(source: Source, n: nat, ls: seq<nat>, first: ReadOutcome)
    requires source.reply.ReturnsString? ==> source.io.pos + TotalLength([n] + ls) <= |source.io.data|
    requires first == ReadFunc(source, Zeros(n)) && first.status == Success
    ensures first.source.reply.ReturnsString? ==> first.source.io.pos + TotalLength(ls) <= |first.source.io.data|
    ensures var r, rest := ReadAll(source, [n] + ls), ReadAll(first.source, ls);
            r.status == rest.status && r.chunks == [first.dest] + rest.chunks
  {
    TotalLengthCons(n, ls);
    assert ([n] + ls)[0] == n && ([n] + ls)[1..] == ls;
  }

  /** A read of `n` bytes from a string source that holds them. */
  lemma ReadFromString(data: seq<byte>, pos: nat, n: nat)
    requires pos + n <= |data|
    ensures ReadFunc(Source(MemoryFile(data, pos), ReturnsString), Zeros(n))
         == ReadOutcome(Success, data[pos..pos + n], Source(MemoryFile(data, pos + n), ReturnsString))
  {
  }

  /** Where the first chunk and the rest lie when `data` holds all of them from `pos` on. */
  lemma ChunkSlices(data: seq<byte>, pos: nat, chunks: seq<seq<byte>>)
    requires |chunks| > 0
    requires pos + |Seqs.Concat(chunks)| <= |data|
    requires data[pos..pos + |Seqs.Concat(chunks)|] == Seqs.Concat(chunks)
    ensures pos + |chunks[0]| + |Seqs.Concat(chunks[1..])| <= |data|
    ensures data[pos..pos + |chunks[0]|] == chunks[0]
    ensures data[pos + |chunks[0]|..pos + |chunks[0]| + |Seqs.Concat(chunks[1..])|] == Seqs.Concat(chunks[1..])
  {
    assert Seqs.Concat(chunks) == chunks[0] + Seqs.Concat(chunks[1..]);
    SliceOfConcat(data, pos, chunks[0], Seqs.Concat(chunks[1..]));
  }

  /** Reading the lengths of `chunks` yields the first chunk, then what reading the rest yields. */
  lemma ReadAllCons(data: seq<byte>, pos: nat, chunks: seq<seq<byte>>)
    requires |chunks| > 0
    requires pos + |chunks[0]| <= |data| && data[pos..pos + |chunks[0]|] == chunks[0]
    requires pos + |chunks[0]| + TotalLength(Lengths(chunks[1..])) <= |data|
    ensures var ls := Lengths(chunks[1..]);
            TotalLength([|chunks[0]|] + ls) == |chunks[0]| + TotalLength(ls)
    ensures var ls := Lengths(chunks[1..]);
            var r := ReadAll(Source(MemoryFile(data, pos), ReturnsString), [|chunks[0]|] + ls);
            var rest := ReadAll(Source(MemoryFile(data, pos + |chunks[0]|), ReturnsString), ls);
            r.status == rest.status && r.chunks == [chunks[0]] + rest.chunks
  {
    var c, ls := chunks[0], Lengths(chunks[1..]);
    var next := Source(MemoryFile(data, pos + |c|), ReturnsString);
    TotalLengthCons(|c|, ls);
    ReadFromString(data, pos, |c|);
    ReadAllUnfold(Source(MemoryFile(data, pos), ReturnsString), |c|, ls, ReadOutcome(Success, c, next));
  }

  lemma {:induction false} ReadAllReturns(data: seq<byte>, pos: nat, chunks: seq<seq<byte>>)
    requires pos + |Seqs.Concat(chunks)| <= |data|
    requires data[pos..pos + |Seqs.Concat(chunks)|] == Seqs.Concat(chunks)
    ensures TotalLength(Lengths(chunks)) == |Seqs.Concat(chunks)|
    ensures ReadAll(Source(MemoryFile(data, pos), ReturnsString), Lengths(chunks)).status == Success
    ensures ReadAll(Source(MemoryFile(data, pos), ReturnsString), Lengths(chunks)).chunks == chunks
    decreases |chunks|
  {
    TotalLengthOfChunks(chunks);
    if |chunks| > 0 {
      ChunkSlices(data, pos, chunks);
      TotalLengthOfChunks(chunks[1..]);
      ReadAllCons(data, pos, chunks);
      assert Lengths(chunks) == [|chunks[0]|] + Lengths(chunks[1..]);
      ReadAllReturns(data, pos + |chunks[0]|, chunks[1..]);
      assert chunks == [chunks[0]] + chunks[1..];
    }
  }

  /**
   * Stream round trip: whatever cairo writes through the write callback into
   * a fresh in-memory file, it reads back unchanged, chunk for chunk and
   * byte for byte (zero bytes included), through the read callback.
   */
  lemma StreamRoundTrip(chunks: seq<seq<byte>>)
    ensures var w := WriteAll(Sink(MemoryFile([], 0), false), chunks);
            && w.status == Success
            && TotalLength(Lengths(chunks)) <= |w.sink.io.data|
            && ReadAll(Source(MemoryFile(w.sink.io.data, 0), ReturnsString), Lengths(chunks)).chunks == chunks
  {
    var w := WriteAll(Sink(MemoryFile([], 0), false), chunks);
    WriteAllAppends(Sink(MemoryFile([], 0), false), chunks);
    assert w.sink.io.data == Seqs.Concat(chunks);
    ReadAllReturns(w.sink.io.data, 0, chunks);
  }
}
