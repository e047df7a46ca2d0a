/**
 * What `each_line` promises over a whole stream, proved about `Cycles`, the
 * function `Reader.EachLine` is verified against.
 */
module ReaderProperties {
  import opened Wrappers
  import opened Bytes
  import opened Printable
  import opened Detection
  import opened Records
  import opened DelimitedReader
  import opened Options

  /** The prepared chunks before the first one that is empty once prepared: all the data `each_line` sees. */
  function Live(chunks: seq<seq<byte>>, strip: bool): seq<seq<byte>> {
    if chunks == [] || Prepare(chunks[0], strip) == [] then []
    else [Prepare(chunks[0], strip)] + Live(chunks[1..], strip)
  }

  lemma ConcatCons(c: seq<byte>, cs: seq<seq<byte>>)
    ensures Concat([c] + cs) == c + Concat(cs)
  {
    assert ([c] + cs)[1..] == cs;
  }

  /** Concatenation is associative; stated once so that proofs about records can name the regrouping. */
  lemma Reassociate(a: seq<byte>, b: seq<byte>, c: seq<byte>)
    ensures a + (b + c) == (a + b) + c
  {
  }

  /** A buffer without the delimiter is all fragment. */
  lemma SplitFree(s: seq<byte>, d: seq<byte>)
    requires d != [] && Free(s, d)
    ensures SplitLines(s, d) == Split([], s)
  {
  }

  /**
   * With the delimiter fixed and a fragment that does not contain it, the
   * cycles emit exactly the records of splitting all the data at once, and
   * carry exactly its fragment.
   */
  lemma {:induction false} SplitAcrossChunks(buffer: seq<byte>, d: seq<byte>, chunks: seq<seq<byte>>, strip: bool, bufferSize: nat)
    requires d != [] && Free(buffer, d)
    ensures Cycles(buffer, Some(d), chunks, strip, bufferSize).records ==
      SplitLines(buffer + Concat(Live(chunks, strip)), d).records
    ensures Cycles(buffer, Some(d), chunks, strip, bufferSize).buffer ==
      SplitLines(buffer + Concat(Live(chunks, strip)), d).partial
    decreases |chunks|
  {
    if chunks == [] || Prepare(chunks[0], strip) == [] {
      assert buffer + Concat(Live(chunks, strip)) == buffer;
      SplitFree(buffer, d);
    } else {
      var chunk := Prepare(chunks[0], strip);
      var split := SplitLines(buffer + chunk, d);
      var later := Concat(Live(chunks[1..], strip));
      SplitAcrossChunks(split.partial, d, chunks[1..], strip, bufferSize);
      SplitAppend(buffer + chunk, later, d);
      ConcatCons(chunk, Live(chunks[1..], strip));
      Reassociate(buffer, chunk, later);
    }
  }

  /** When no chunk strips to nothing, the data `each_line` sees is the whole stream, prepared. */
  lemma {:induction false} LiveIsWhole(chunks: seq<seq<byte>>, strip: bool)
    requires forall k :: 0 <= k < |chunks| ==> Prepare(chunks[k], strip) != []
    ensures Concat(Live(chunks, strip)) == Prepare(Concat(chunks), strip)
  {
    if chunks != [] {
      LiveIsWhole(chunks[1..], strip);
      ConcatCons(Prepare(chunks[0], strip), Live(chunks[1..], strip));
      assert chunks == [chunks[0]] + chunks[1..];
      ConcatCons(chunks[0], chunks[1..]);
      FilterAppend(chunks[0], Concat(chunks[1..]));
    }
  }

  /**
   * With a delimiter supplied and no chunk stripped to nothing, the records
   * are the complete pieces of splitting the whole stream once: where the
   * chunks end does not matter, even inside a delimiter of several bytes.
   */
  lemma ChunkBoundariesTransparent(chunks: seq<seq<byte>>, d: seq<byte>, strip: bool, bufferSize: nat)
    requires d != []
    requires forall k :: 0 <= k < |chunks| ==> Prepare(chunks[k], strip) != []
    ensures Cycles([], Some(d), chunks, strip, bufferSize).records == SplitLines(Prepare(Concat(chunks), strip), d).records
    ensures Cycles([], Some(d), chunks, strip, bufferSize).buffer == SplitLines(Prepare(Concat(chunks), strip), d).partial
  {
    SplitAcrossChunks([], d, chunks, strip, bufferSize);
    LiveIsWhole(chunks, strip);
    assert [] + Concat(Live(chunks, strip)) == Prepare(Concat(chunks), strip);
  }

  /** Two ways of cutting the same stream into chunks yield the same records and the same leftover. */
  lemma Rechunking(chunks: seq<seq<byte>>, others: seq<seq<byte>>, d: seq<byte>, strip: bool, bufferSize: nat)
    requires d != [] && Concat(chunks) == Concat(others)
    requires forall k :: 0 <= k < |chunks| ==> Prepare(chunks[k], strip) != []
    requires forall k :: 0 <= k < |others| ==> Prepare(others[k], strip) != []
    ensures Cycles([], Some(d), chunks, strip, bufferSize).records == Cycles([], Some(d), others, strip, bufferSize).records
    ensures Cycles([], Some(d), chunks, strip, bufferSize).buffer == Cycles([], Some(d), others, strip, bufferSize).buffer
  {
    ChunkBoundariesTransparent(chunks, d, strip, bufferSize);
    ChunkBoundariesTransparent(others, d, strip, bufferSize);
  }

  lemma Regroup(first: seq<byte>, last: seq<byte>, left: seq<byte>, fragment: seq<byte>, later: seq<byte>, buffer: seq<byte>, chunk: seq<byte>)
    requires first + fragment == buffer + chunk
    requires last + left == fragment + later
    ensures first + last + left == buffer + (chunk + later)
  {
    Reassociate(first, last, left);
    Reassociate(first, fragment, later);
  }

  lemma {:induction false} JoinAppend(xs: seq<seq<byte>>, ys: seq<seq<byte>>, d: seq<byte>)
    ensures Join(xs + ys, d) == Join(xs, d) + Join(ys, d)
  {
    if xs != [] {
      assert (xs + ys)[1..] == xs[1..] + ys;
      JoinAppend(xs[1..], ys, d);
    } else {
      assert xs + ys == ys;
    }
  }

  /**
   * The buffer invariant: the records emitted, each with the delimiter put
   * back, followed by the buffer left over, are exactly the old buffer
   * followed by every byte appended since.
   */
  lemma {:induction false} Conservation(buffer: seq<byte>, delimiter: Option<seq<byte>>, chunks: seq<seq<byte>>, strip: bool, bufferSize: nat)
    requires Delimits(delimiter)
    ensures var r := Cycles(buffer, delimiter, chunks, strip, bufferSize);
      !r.failed && r.delimiter.Some? ==>
        Join(r.records, r.delimiter.value) + r.buffer == buffer + Concat(Live(chunks, strip))
    decreases |chunks|
  {
    var r := Cycles(buffer, delimiter, chunks, strip, bufferSize);
    if chunks == [] || Prepare(chunks[0], strip) == [] {
      assert buffer + Concat(Live(chunks, strip)) == buffer;
    } else {
      var chunk := Prepare(chunks[0], strip);
      if delimiter.None? && Detect(buffer + chunk, bufferSize).Failure? {
        CycleFails(buffer, chunks, strip, bufferSize);
      } else {
        var d := if delimiter.Some? then delimiter.value else Detect(buffer + chunk, bufferSize).value;
        CycleSplits(buffer, delimiter, d, chunks, strip, bufferSize);
        var split := SplitLines(buffer + chunk, d);
        var rest := Cycles(split.partial, Some(d), chunks[1..], strip, bufferSize);
        var later := Concat(Live(chunks[1..], strip));
        Conservation(split.partial, Some(d), chunks[1..], strip, bufferSize);
        JoinAppend(split.records, rest.records, d);
        ConcatCons(chunk, Live(chunks[1..], strip));
        Regroup(Join(split.records, d), Join(rest.records, d), rest.buffer, split.partial, later, buffer, chunk);
      }
    }
  }

  /** After a cycle has run, the fragment carried to the next one never contains the delimiter. */
  lemma CarriedFragmentFree(buffer: seq<byte>, delimiter: Option<seq<byte>>, chunks: seq<seq<byte>>, strip: bool, bufferSize: nat)
    requires Delimits(delimiter) && Live(chunks, strip) != []
    ensures var r := Cycles(buffer, delimiter, chunks, strip, bufferSize);
      !r.failed ==> r.delimiter.Some? && Free(r.buffer, r.delimiter.value)
  {
    var r := Cycles(buffer, delimiter, chunks, strip, bufferSize);
    if !r.failed {
      var d := r.delimiter.value;
      var split := SplitLines(buffer + Prepare(chunks[0], strip), d);
      SplitAcrossChunks(split.partial, d, chunks[1..], strip, bufferSize);
    }
  }

  /**
   * Without a delimiter, the first chunk that is not empty once prepared
   * decides it: detection runs on the buffer with that chunk appended, and
   * either raises or fixes the delimiter for the rest of the stream.
   */
  lemma DetectionOnFirstChunk(buffer: seq<byte>, chunks: seq<seq<byte>>, strip: bool, bufferSize: nat)
    requires chunks != [] && Prepare(chunks[0], strip) != []
    ensures var r := Cycles(buffer, None, chunks, strip, bufferSize);
      var found := Detect(buffer + Prepare(chunks[0], strip), bufferSize);
      && (r.failed <==> found.Failure?)
      && (found.Success? ==> r.delimiter == Some(found.value))
  {
  }

  /**
   * A chunk that is empty once prepared ends `each_line`: nothing the stream
   * holds after it is read.
   */
  lemma {:induction false} StopsAtEmptyChunk(buffer: seq<byte>, delimiter: Option<seq<byte>>, chunks: seq<seq<byte>>, k: nat, strip: bool, bufferSize: nat)
    requires Delimits(delimiter) && k < |chunks| && Prepare(chunks[k], strip) == []
    ensures Cycles(buffer, delimiter, chunks, strip, bufferSize) == Cycles(buffer, delimiter, chunks[..k + 1], strip, bufferSize)
    ensures Cycles(buffer, delimiter, chunks, strip, bufferSize).consumed <= k + 1
    decreases k
  {
    var prefix := chunks[..k + 1];
    assert prefix[0] == chunks[0];
    var chunk := Prepare(chunks[0], strip);
    if chunk == [] {
      CycleStops(buffer, delimiter, chunks, strip, bufferSize);
      CycleStops(buffer, delimiter, prefix, strip, bufferSize);
    } else if delimiter.None? && Detect(buffer + chunk, bufferSize).Failure? {
      CycleFails(buffer, chunks, strip, bufferSize);
      CycleFails(buffer, prefix, strip, bufferSize);
    } else {
      var d := if delimiter.Some? then delimiter.value else Detect(buffer + chunk, bufferSize).value;
      CycleSplits(buffer, delimiter, d, chunks, strip, bufferSize);
      CycleSplits(buffer, delimiter, d, prefix, strip, bufferSize);
      var split := SplitLines(buffer + chunk, d);
      PrefixTail(chunks, k);
      StopsAtEmptyChunk(split.partial, Some(d), chunks[1..], k - 1, strip, bufferSize);
    }
  }

  lemma PrefixTail<T>(xs: seq<T>, k: nat)
    requires 0 < k < |xs|
    ensures xs[..k + 1][1..] == xs[1..][..k]
  {
  }

  /**
   * Detection raises exactly when no delimiter was given and the first
   * prepared chunk, behind the buffer, holds neither CR nor LF and is longer
   * than `bufferSize`.
   */
  lemma FailsOnlyOnOversizedFirstRead(buffer: seq<byte>, delimiter: Option<seq<byte>>, chunks: seq<seq<byte>>, strip: bool, bufferSize: nat)
    requires Delimits(delimiter)
    ensures Cycles(buffer, delimiter, chunks, strip, bufferSize).failed <==>
      && delimiter.None? && chunks != [] && Prepare(chunks[0], strip) != []
      && NoTerminator(buffer + Prepare(chunks[0], strip))
      && |buffer + Prepare(chunks[0], strip)| > bufferSize
  {
  }

  /** A fresh reader over a stream that answers no more than `bufferSize` bytes per read never raises. */
  lemma ConformingStreamNeverFails(delimiter: Option<seq<byte>>, chunks: seq<seq<byte>>, strip: bool, bufferSize: nat)
    requires Delimits(delimiter)
    requires forall k :: 0 <= k < |chunks| ==> |chunks[k]| <= bufferSize
    ensures !Cycles([], delimiter, chunks, strip, bufferSize).failed
  {
    FailsOnlyOnOversizedFirstRead([], delimiter, chunks, strip, bufferSize);
    if chunks != [] {
      assert [] + Prepare(chunks[0], strip) == Prepare(chunks[0], strip);
    }
  }

  /** A string without the byte `b` is free of the one-byte delimiter `[b]`. */
  lemma FreeOfByte(s: seq<byte>, b: byte)
    requires forall i :: 0 <= i < |s| ==> s[i] != b
    ensures Free(s, [b])
  {
    forall i | 0 <= i <= |s|
      ensures !OccursAt(s, [b], i)
    {
      if i < |s| {
        assert s[i..i + 1] == [s[i]];
      }
    }
  }

  predicate AllPrintable(s: seq<byte>) {
    forall i :: 0 <= i < |s| ==> IsPrintable(s[i])
  }

  lemma {:induction false} KeptChunks(chunks: seq<seq<byte>>, strip: bool)
    requires strip ==> forall k :: 0 <= k < |chunks| ==> forall i :: 0 <= i < |chunks[k]| ==> Kept(chunks[k][i])
    ensures Prepare(Concat(chunks), strip) == Concat(chunks)
    ensures forall k :: 0 <= k < |chunks| ==> Prepare(chunks[k], strip) == chunks[k]
  {
    if strip {
      forall k | 0 <= k < |chunks|
        ensures Prepare(chunks[k], strip) == chunks[k]
      {
        FilterKeepsKept(chunks[k]);
      }
      if chunks != [] {
        KeptChunks(chunks[1..], strip);
        FilterAppend(chunks[0], Concat(chunks[1..]));
      }
    }
  }

  /**
   * Records joined by a supplied delimiter come back exactly, in order,
   * however the stream is cut into chunks; an unterminated tail stays in the
   * buffer and is never emitted. With stripping off any bytes come back; with
   * it on, the stream must hold only kept bytes.
   */
  lemma JoinedRecordsComeBack(chunks: seq<seq<byte>>, records: seq<seq<byte>>, tail: seq<byte>, d: seq<byte>, strip: bool, bufferSize: nat)
    requires d != [] && Concat(chunks) == Join(records, d) + tail
    requires forall k :: 0 <= k < |records| ==> EndsAtFirst(records[k], d)
    requires Free(tail, d)
    requires forall k :: 0 <= k < |chunks| ==> chunks[k] != []
    requires strip ==> forall k :: 0 <= k < |chunks| ==> forall i :: 0 <= i < |chunks[k]| ==> Kept(chunks[k][i])
    ensures Cycles([], Some(d), chunks, strip, bufferSize).records == records
    ensures Cycles([], Some(d), chunks, strip, bufferSize).buffer == tail
  {
    KeptChunks(chunks, strip);
    ChunkBoundariesTransparent(chunks, d, strip, bufferSize);
    SplitUnique(Concat(chunks), d, records, tail);
  }

  lemma PrintableNoTerminator(s: seq<byte>)
    requires AllPrintable(s)
    ensures forall i :: 0 <= i < |s| ==> Kept(s[i]) && s[i] != LF && s[i] != CR
  {
  }

  lemma JoinTwo(a: seq<byte>, b: seq<byte>, d: seq<byte>)
    ensures Join([a, b], d) == a + d + (b + d)
  {
    assert [a, b][1..] == [b];
    assert [b][1..] == [];
    assert Join([b], d) == b + d + [];
    assert b + d + [] == b + d;
  }

  lemma ThreeLinesSplit(one: seq<byte>, two: seq<byte>, three: seq<byte>)
    requires AllPrintable(one) && AllPrintable(two) && AllPrintable(three)
    ensures SplitLines(one + [LF] + two + [LF] + three, [LF]) == Split([one, two], three)
  {
    assert EndsAtFirst(one, [LF]) by {
      PrintableNoTerminator(one);
      FreeOfByte(one, LF);
      assert one + [LF][..0] == one;
    }
    assert EndsAtFirst(two, [LF]) by {
      PrintableNoTerminator(two);
      FreeOfByte(two, LF);
      assert two + [LF][..0] == two;
    }
    assert Free(three, [LF]) by {
      PrintableNoTerminator(three);
      FreeOfByte(three, LF);
    }
    assert Join([one, two], [LF]) + three == one + [LF] + two + [LF] + three by {
      JoinTwo(one, two, [LF]);
    }
    SplitUnique(one + [LF] + two + [LF] + three, [LF], [one, two], three);
  }

  lemma ThreeLinesKept(one: seq<byte>, two: seq<byte>, three: seq<byte>)
    requires AllPrintable(one) && AllPrintable(two) && AllPrintable(three)
    ensures Prepare(one + [LF] + two + [LF] + three, true) == one + [LF] + two + [LF] + three
  {
    var s := one + [LF] + two + [LF] + three;
    PrintableNoTerminator(one);
    PrintableNoTerminator(two);
    PrintableNoTerminator(three);
    assert forall i :: 0 <= i < |s| ==> Kept(s[i]);
    FilterKeepsKept(s);
  }

  lemma ThreeLinesDetect(one: seq<byte>, two: seq<byte>, three: seq<byte>)
    requires AllPrintable(one)
    ensures Detect(one + [LF] + two + [LF] + three, DefaultBufferSize) == Success([LF])
  {
    PrintableNoTerminator(one);
    assert FirstTerminator(one + [LF] + two + [LF] + three, |one|);
  }

  /**
   * A fresh reader over a single chunk: the delimiter given or detected on
   * that chunk, one split, and its fragment kept.
   */
  lemma OneChunk(s: seq<byte>, delimiter: Option<seq<byte>>, d: seq<byte>, strip: bool, bufferSize: nat)
    requires Prepare(s, strip) != []
    requires delimiter == Some(d) || (delimiter == None && Detect(Prepare(s, strip), bufferSize) == Success(d))
    requires d != []
    ensures Cycles([], delimiter, [s], strip, bufferSize) ==
      Run(SplitLines(Prepare(s, strip), d).records, SplitLines(Prepare(s, strip), d).partial, Some(d), false, 1)
  {
    var chunk := Prepare(s, strip);
    var split := SplitLines(chunk, d);
    var tail := Cycles(split.partial, Some(d), [], strip, bufferSize);
    assert tail == Run([], split.partial, Some(d), false, 0);
    assert [] + chunk == chunk;
    assert [s][1..] == [];
    assert Cycles([], delimiter, [s], strip, bufferSize) == Resume(split.records, 1, tail);
    assert split.records + [] == split.records;
  }

  /**
   * With the default options, a stream "one LF two LF three" whose three
   * pieces are printable detects LF and yields "one" and "two"; "three" has no
   * terminator and is still in the buffer when the stream ends, so it is never
   * emitted.
   */
  lemma ThreeLines(one: seq<byte>, two: seq<byte>, three: seq<byte>)
    requires AllPrintable(one) && AllPrintable(two) && AllPrintable(three)
    ensures Cycles([], None, [one + [LF] + two + [LF] + three], true, DefaultBufferSize) ==
      Run([one, two], three, Some([LF]), false, 1)
  {
    var s := one + [LF] + two + [LF] + three;
    ThreeLinesKept(one, two, three);
    ThreeLinesDetect(one, two, three);
    ThreeLinesSplit(one, two, three);
    OneChunk(s, None, [LF], true, DefaultBufferSize);
  }

  /**
   * A short input without CR or LF detects LF, and since that LF never comes
   * no record is emitted: the whole input is the fragment, dropped at the end
   * of the stream.
   */
  lemma ShortUnterminatedInput(s: seq<byte>, strip: bool, bufferSize: nat)
    requires Prepare(s, strip) != [] && NoTerminator(Prepare(s, strip)) && |s| <= bufferSize
    ensures Cycles([], None, [s], strip, bufferSize) == Run([], Prepare(s, strip), Some([LF]), false, 1)
  {
    var chunk := Prepare(s, strip);
    assert [] + chunk == chunk;
    assert Detect(chunk, bufferSize) == Success([LF]);
    assert Free(chunk, [LF]) by {
      FreeOfByte(chunk, LF);
    }
    SplitFree(chunk, [LF]);
    var tail := Cycles(chunk, Some([LF]), [], strip, bufferSize);
    assert tail == Run([], chunk, Some([LF]), false, 0);
    assert [s][1..] == [];
    assert Cycles([], None, [s], strip, bufferSize) == Resume([], 1, tail);
  }

  /** A string missing one byte of `d` holds no occurrence of `d`. */
  lemma FreeOfMissing(s: seq<byte>, d: seq<byte>, k: nat)
    requires k < |d| && forall i :: 0 <= i < |s| ==> s[i] != d[k]
    ensures Free(s, d)
  {
    forall i | 0 <= i <= |s|
      ensures !OccursAt(s, d, i)
    {
      if i + |d| <= |s| {
        assert s[i..i + |d|][k] == s[i + k];
      }
    }
  }

  lemma FilterCrLf()
    ensures Filter([CR, LF]) == [CR, LF]
  {
    FilterKeepsKept([CR, LF]);
  }

  lemma StripLine(x: seq<byte>, y: seq<byte>, z: seq<byte>)
    requires AllPrintable(x) && AllPrintable(y) && AllPrintable(z)
    ensures Filter(x + [NUL] + y + [CR, LF] + z) == x + y + [CR, LF] + z
  {
    var line := y + [CR, LF];
    assert Filter(x + [NUL]) == x by {
      FilterAppend(x, [NUL]);
      PrintableNoTerminator(x);
      FilterKeepsKept(x);
      assert Filter([NUL]) == [];
    }
    assert Filter(line) == line by {
      FilterAppend(y, [CR, LF]);
      PrintableNoTerminator(y);
      FilterKeepsKept(y);
      FilterCrLf();
    }
    assert Filter(line + z) == line + z by {
      FilterAppend(line, z);
      PrintableNoTerminator(z);
      FilterKeepsKept(z);
    }
    assert x + [NUL] + y + [CR, LF] + z == (x + [NUL]) + (line + z);
    assert x + (line + z) == x + y + [CR, LF] + z;
    FilterAppend(x + [NUL], line + z);
  }

  lemma SplitCrLfLine(x: seq<byte>, z: seq<byte>)
    requires AllPrintable(x) && AllPrintable(z)
    ensures SplitLines(x + [CR, LF] + z, [CR, LF]) == Split([x], z)
  {
    assert EndsAtFirst(x, [CR, LF]) by {
      PrintableNoTerminator(x);
      assert x + [CR, LF][..1] == x + [CR];
      FreeOfMissing(x + [CR], [CR, LF], 1);
    }
    assert Free(z, [CR, LF]) by {
      PrintableNoTerminator(z);
      FreeOfMissing(z, [CR, LF], 1);
    }
    assert Join([x], [CR, LF]) + z == x + [CR, LF] + z by {
      assert [x][1..] == [];
    }
    SplitUnique(x + [CR, LF] + z, [CR, LF], [x], z);
  }

  /**
   * With stripping on and CR LF supplied, the stream "x NUL y CR LF z" of
   * printable pieces yields the record "x y" and keeps "z" pending.
   */
  lemma StripThenSplit(x: seq<byte>, y: seq<byte>, z: seq<byte>, bufferSize: nat)
    requires AllPrintable(x) && AllPrintable(y) && AllPrintable(z)
    ensures Cycles([], Some([CR, LF]), [x + [NUL] + y + [CR, LF] + z], true, bufferSize) ==
      Run([x + y], z, Some([CR, LF]), false, 1)
  {
    assert AllPrintable(x + y);
    StripLine(x, y, z);
    SplitCrLfLine(x + y, z);
    OneChunk(x + [NUL] + y + [CR, LF] + z, Some([CR, LF]), [CR, LF], true, bufferSize);
  }

  lemma SplitOnCr(x: seq<byte>, z: seq<byte>)
    requires forall i :: 0 <= i < |x| ==> x[i] != CR
    requires forall i :: 0 <= i < |z| ==> z[i] != CR
    ensures SplitLines(x + [CR] + z, [CR]) == Split([x], z)
  {
    assert EndsAtFirst(x, [CR]) by {
      assert x + [CR][..0] == x;
      FreeOfByte(x, CR);
    }
    FreeOfByte(z, CR);
    SplitFree(z, [CR]);
    SplitAfterRecord(x, [CR], z);
    assert [x] + [] == [x];
  }

  lemma CrLfAcrossKept(x: seq<byte>, y: seq<byte>)
    requires AllPrintable(x) && AllPrintable(y)
    ensures Prepare(x + [CR], true) == x + [CR]
    ensures Prepare([LF] + y + [CR, LF], true) == [LF] + y + [CR, LF]
  {
    PrintableNoTerminator(x);
    PrintableNoTerminator(y);
    var first := x + [CR];
    var second := [LF] + y + [CR, LF];
    assert forall i :: 0 <= i < |first| ==> Kept(first[i]);
    assert forall i :: 0 <= i < |second| ==> Kept(second[i]);
    FilterKeepsKept(first);
    FilterKeepsKept(second);
  }

  lemma CrLfAcrossDetect(x: seq<byte>, bufferSize: nat)
    requires AllPrintable(x)
    ensures Detect([] + (x + [CR]), bufferSize) == Success([CR])
  {
    PrintableNoTerminator(x);
    var b := [] + (x + [CR]);
    assert FirstTerminator(b, |x|);
    assert !CrLfAt(b, |x|);
  }

  lemma CrLfAcrossSplits(x: seq<byte>, y: seq<byte>)
    requires AllPrintable(x) && AllPrintable(y)
    ensures SplitLines([] + (x + [CR]), [CR]) == Split([x], [])
    ensures SplitLines([LF] + y + [CR, LF], [CR]) == Split([[LF] + y], [LF])
  {
    PrintableNoTerminator(x);
    PrintableNoTerminator(y);
    assert [] + (x + [CR]) == x + [CR] + [];
    SplitOnCr(x, []);
    assert [LF] + y + [CR, LF] == ([LF] + y) + [CR] + [LF];
    SplitOnCr([LF] + y, [LF]);
  }

  lemma CrLfAcrossSecond(y: seq<byte>, bufferSize: nat)
    requires AllPrintable(y)
    ensures Cycles([], Some([CR]), [[LF] + y + [CR, LF]], true, bufferSize) ==
      Run([[LF] + y], [LF], Some([CR]), false, 1)
  {
    CrLfAcrossKept([], y);
    CrLfAcrossSplits([], y);
    OneChunk([LF] + y + [CR, LF], Some([CR]), [CR], true, bufferSize);
  }

  lemma CrLfAcrossFirst(x: seq<byte>, second: seq<byte>, bufferSize: nat)
    requires AllPrintable(x)
    ensures Cycles([], None, [x + [CR], second], true, bufferSize) ==
      Resume([x], 1, Cycles([], Some([CR]), [second], true, bufferSize))
  {
    var chunks := [x + [CR], second];
    CrLfAcrossKept(x, []);
    CrLfAcrossDetect(x, bufferSize);
    CrLfAcrossSplits(x, []);
    CycleSplits([], None, [CR], chunks, true, bufferSize);
    assert chunks[1..] == [second];
  }

  /**
   * When the first read ends on CR and the LF that follows it opens the next
   * read, detection already settled on a lone CR: with stripping on, the
   * stream "x CR" then "LF y CR LF" of printable pieces yields "x" and
   * "LF y", and keeps the final LF as the fragment.
   */
  lemma CrLfAcrossFirstBoundary(x: seq<byte>, y: seq<byte>, bufferSize: nat)
    requires AllPrintable(x) && AllPrintable(y)
    ensures Cycles([], None, [x + [CR], [LF] + y + [CR, LF]], true, bufferSize) ==
      Run([x, [LF] + y], [LF], Some([CR]), false, 2)
  {
    var second := [LF] + y + [CR, LF];
    CrLfAcrossFirst(x, second, bufferSize);
    CrLfAcrossSecond(y, bufferSize);
  }
}
