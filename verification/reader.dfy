/**
 * `IOStreams::Delimited::Reader`: reads a stream in chunks, strips each chunk
 * down to printable bytes when asked, detects the delimiter once if none was
 * given, and hands out every complete record with its delimiter removed,
 * carrying the unterminated rest over to the next chunk.
 */
module DelimitedReader {
  import opened Wrappers
  import opened Bytes
  import opened Printable
  import opened Detection
  import opened Records
  import opened Options

  /**
   * The input stream, given by the answers its `read` returns: one chunk per
   * call while chunks remain, then `nil` for good.
   */
  class ChunkStream {
    const chunks: seq<seq<byte>>
    var pos: nat

    predicate Valid()
      reads this
    {
      pos <= |chunks|
    }

    constructor (chunks: seq<seq<byte>>)
      ensures Valid() && this.chunks == chunks && pos == 0
    {
      this.chunks := chunks;
      pos := 0;
    }

    method Read() returns (chunk: Option<seq<byte>>)
      requires Valid()
      modifies this
      ensures Valid()
      ensures old(pos) < |chunks| ==> chunk == Some(chunks[old(pos)]) && pos == old(pos) + 1
      ensures old(pos) == |chunks| ==> chunk == None && pos == old(pos)
    {
      if pos < |chunks| {
        chunk := Some(chunks[pos]);
        pos := pos + 1;
      } else {
        chunk := None;
      }
    }
  }

  /** What `read_chunk` appends for a chunk: the chunk itself, or its printable bytes. */
  function Prepare(chunk: seq<byte>, strip: bool): seq<byte> {
    if strip then Filter(chunk) else chunk
  }

  /** A delimiter, once known, is a non-empty byte string. */
  predicate Delimits(delimiter: Option<seq<byte>>) {
    delimiter.Some? ==> delimiter.value != []
  }

  /**
   * The outcome of `each_line`: the records handed to the block, the buffer and
   * delimiter it leaves, whether detection raised, and how many chunks it took
   * from the stream (the one that ended the loop included).
   */
  datatype Run = Run(records: seq<seq<byte>>, buffer: seq<byte>, delimiter: Option<seq<byte>>, failed: bool, consumed: nat)

  /** `run`, after `records` already emitted in `consumed` earlier cycles. */
  function Resume(records: seq<seq<byte>>, consumed: nat, run: Run): Run {
    Run(records + run.records, run.buffer, run.delimiter, run.failed, run.consumed + consumed)
  }

  /**
   * `each_line`, one cycle per chunk: stop on `nil` or on a chunk that is
   * empty once prepared; otherwise append it, detect the delimiter if there is
   * none yet (raising stops everything), emit the complete records and carry
   * the fragment into the next cycle.
   */
  function Cycles(buffer: seq<byte>, delimiter: Option<seq<byte>>, chunks: seq<seq<byte>>, strip: bool, bufferSize: nat): (r: Run)
    requires Delimits(delimiter)
    ensures Delimits(r.delimiter) && r.consumed <= |chunks|
    ensures delimiter.Some? ==> r.delimiter == delimiter && !r.failed
    ensures r.failed ==> r.records == [] && r.consumed == 1
    decreases |chunks|
  {
    if chunks == [] then Run([], buffer, delimiter, false, 0)
    else
      var chunk := Prepare(chunks[0], strip);
      if chunk == [] then Run([], buffer, delimiter, false, 1)
      else
        var b := buffer + chunk;
        var found := if delimiter.Some? then Success(delimiter.value) else Detect(b, bufferSize);
        if found.Failure? then Run([], b, delimiter, true, 1)
        else
          var split := SplitLines(b, found.value);
          Resume(split.records, 1, Cycles(split.partial, Some(found.value), chunks[1..], strip, bufferSize))
  }

  lemma Remaining<T>(xs: seq<T>, p: nat)
    requires p < |xs|
    ensures xs[p..] != [] && xs[p..][0] == xs[p] && xs[p..][1..] == xs[p + 1..]
  {
  }

  /** One cycle that ends the loop: no chunk left, or one that prepares to nothing. */
  lemma CycleStops(buffer: seq<byte>, delimiter: Option<seq<byte>>, chunks: seq<seq<byte>>, strip: bool, bufferSize: nat)
    requires Delimits(delimiter)
    requires chunks == [] || Prepare(chunks[0], strip) == []
    ensures Cycles(buffer, delimiter, chunks, strip, bufferSize) ==
      Run([], buffer, delimiter, false, if chunks == [] then 0 else 1)
  {
  }

  /** One cycle in which detection raises. */
  lemma CycleFails(buffer: seq<byte>, chunks: seq<seq<byte>>, strip: bool, bufferSize: nat)
    requires chunks != [] && Prepare(chunks[0], strip) != []
    requires Detect(buffer + Prepare(chunks[0], strip), bufferSize).Failure?
    ensures Cycles(buffer, None, chunks, strip, bufferSize) ==
      Run([], buffer + Prepare(chunks[0], strip), None, true, 1)
  {
  }

  /** One cycle that splits with delimiter `d`, given or just detected. */
  lemma CycleSplits(buffer: seq<byte>, delimiter: Option<seq<byte>>, d: seq<byte>, chunks: seq<seq<byte>>, strip: bool, bufferSize: nat)
    requires Delimits(delimiter) && chunks != [] && Prepare(chunks[0], strip) != []
    requires delimiter == Some(d) || (delimiter == None && Detect(buffer + Prepare(chunks[0], strip), bufferSize) == Success(d))
    ensures d != []
    ensures
      var split := SplitLines(buffer + Prepare(chunks[0], strip), d);
      Cycles(buffer, delimiter, chunks, strip, bufferSize) ==
        Resume(split.records, 1, Cycles(split.partial, Some(d), chunks[1..], strip, bufferSize))
  {
  }

  lemma ResumeTwice(first: seq<seq<byte>>, later: seq<seq<byte>>, consumed: nat, run: Run)
    ensures Resume(first, consumed, Resume(later, 1, run)) == Resume(first + later, consumed + 1, run)
  {
    assert first + (later + run.records) == (first + later) + run.records;
  }

  class Reader {
    const input: ChunkStream
    const bufferSize: nat
    const strip: bool
    /** Only retags strings as UTF-8; bytes are unchanged, so the flag has no effect here. */
    const utf8: bool
    var delimiter: Option<seq<byte>>
    var buffer: seq<byte>

    ghost predicate Valid()
      reads this, input
    {
      input.Valid() && Delimits(delimiter)
    }

    /** `initialize` after `Configure` accepted the options: an empty buffer, no read yet. */
    constructor (input: ChunkStream, config: Config)
      requires input.Valid() && Delimits(config.delimiter)
      ensures Valid() && this.input == input && input.pos == old(input.pos)
      ensures delimiter == config.delimiter && bufferSize == config.bufferSize
      ensures strip == config.strip && utf8 == config.utf8
      ensures buffer == []
    {
      this.input := input;
      delimiter := config.delimiter;
      bufferSize := config.bufferSize;
      strip := config.strip;
      utf8 := config.utf8;
      buffer := [];
    }

    /** `read_chunk`: append the next chunk, stripped if asked, and return how much was appended. */
    method ReadChunk() returns (size: nat)
      requires Valid()
      modifies this`buffer, input
      ensures Valid()
      ensures old(input.pos) < |input.chunks| ==>
        && input.pos == old(input.pos) + 1
        && buffer == old(buffer) + Prepare(input.chunks[old(input.pos)], strip)
        && size == |Prepare(input.chunks[old(input.pos)], strip)|
      ensures old(input.pos) == |input.chunks| ==> input.pos == old(input.pos) && buffer == old(buffer) && size == 0
    {
      var chunk := input.Read();
      if chunk.None? {
        return 0;
      }
      var data := chunk.value;
      if strip {
        data := Filter(data);
      }
      buffer := buffer + data;
      size := |data|;
    }

    /**
     * One turn of the `each_line` loop: read a chunk; stop on `nil` or an
     * empty chunk; otherwise detect the delimiter if none is known yet
     * (stopping if detection raises), then emit the complete records and keep
     * the fragment. `more` says whether the loop goes on.
     */
    method NextCycle() returns (emitted: seq<seq<byte>>, more: bool, failed: bool)
      requires Valid()
      modifies this`buffer, this`delimiter, input
      ensures Valid() && old(input.pos) <= input.pos
      ensures more ==> input.pos == old(input.pos) + 1 && !failed
      ensures more ==>
        var chunk := Prepare(input.chunks[old(input.pos)], strip);
        && chunk != [] && delimiter.Some?
        && (old(delimiter).Some? ==> delimiter == old(delimiter))
        && (old(delimiter).None? ==> Detect(old(buffer) + chunk, bufferSize) == Success(delimiter.value))
        && emitted == SplitLines(old(buffer) + chunk, delimiter.value).records
        && buffer == SplitLines(old(buffer) + chunk, delimiter.value).partial
      ensures more ==>
        Cycles(old(buffer), old(delimiter), input.chunks[old(input.pos)..], strip, bufferSize) ==
        Resume(emitted, 1, Cycles(buffer, delimiter, input.chunks[input.pos..], strip, bufferSize))
      ensures !more ==>
        Cycles(old(buffer), old(delimiter), input.chunks[old(input.pos)..], strip, bufferSize) ==
        Run(emitted, buffer, delimiter, failed, input.pos - old(input.pos))
    {
      ghost var before, at := buffer, input.pos;
      var size := ReadChunk();
      if size == 0 {
        if at < |input.chunks| {
          Remaining(input.chunks, at);
        }
        CycleStops(before, delimiter, input.chunks[at..], strip, bufferSize);
        return [], false, false;
      }
      Remaining(input.chunks, at);
      if delimiter.None? {
        var found := Detect(buffer, bufferSize);
        if found.Failure? {
          CycleFails(before, input.chunks[at..], strip, bufferSize);
          return [], false, true;
        }
        CycleSplits(before, delimiter, found.value, input.chunks[at..], strip, bufferSize);
        delimiter := Some(found.value);
      } else {
        CycleSplits(before, delimiter, delimiter.value, input.chunks[at..], strip, bufferSize);
      }
      var split := SplitLines(buffer, delimiter.value);
      emitted, buffer := split.records, split.partial;
      more, failed := true, false;
    }

    /** `each_line`: the records, in order, that the block would receive. */
    method EachLine() returns (records: seq<seq<byte>>, failed: bool)
      requires Valid()
      modifies this`buffer, this`delimiter, input
      ensures Valid() && old(input.pos) <= input.pos
      ensures Run(records, buffer, delimiter, failed, input.pos - old(input.pos)) ==
        Cycles(old(buffer), old(delimiter), input.chunks[old(input.pos)..], strip, bufferSize)
    {
      ghost var buffer0, delimiter0, pos0 := buffer, delimiter, input.pos;
      records, failed := [], false;
      while true
        invariant Valid()
        invariant pos0 <= input.pos
        invariant Cycles(buffer0, delimiter0, input.chunks[pos0..], strip, bufferSize) ==
          Resume(records, input.pos - pos0, Cycles(buffer, delimiter, input.chunks[input.pos..], strip, bufferSize))
        decreases |input.chunks| - input.pos
      {
        ghost var at := input.pos;
        var emitted, more, stopped := NextCycle();
        if !more {
          records, failed := records + emitted, stopped;
          break;
        }
        ResumeTwice(records, emitted, at - pos0, Cycles(buffer, delimiter, input.chunks[input.pos..], strip, bufferSize));
        records := records + emitted;
      }
    }
  }
}
