# Delimited stream reader

A model in Dafny of `IOStreams::Delimited::Reader`, the reader that cuts a
byte stream into records. It reads the stream a chunk at a time. When asked,
it strips each chunk down to printable bytes plus CR and LF, and appends the
chunk to a buffer. If no delimiter was given, it detects one (CR LF, CR or
LF) on the first data it sees. Each cycle then hands out every complete
record with its delimiter removed and carries the unterminated fragment over
to the next cycle. The fragment still buffered when the stream ends is
dropped.

Modules, following the reader's parts:

- `Wrappers`: `Option` and `Result`.
- `Bytes`: bytes, occurrences of a byte string, `Join` and `Concat`.
- `Printable`: the strip filter `Filter`.
- `Detection`: delimiter auto-detection, `Detect`.
- `Records`: `String#each_line(sep)` as `SplitLines`, a leftmost non-overlapping split into complete records and a fragment.
- `Options`: option handling of `initialize`, `Configure`.
- `DelimitedReader`:
  - the input stream as class `ChunkStream`, given by the answers its `read` returns;
  - class `Reader` with its `buffer` and `delimiter` fields, and methods `ReadChunk`, `NextCycle` (one turn of the loop) and `EachLine`;
  - `Cycles`, the recursive function `EachLine` is proved against.
- `ReaderProperties`: what `each_line` promises over a whole stream, proved about `Cycles`.

The records `each_line` passes to its block are returned as a sequence, in
the order the block would receive them. A raise from detection becomes the
`failed` result.

Where the doc comments of `reader.rb` and its code disagree, the model follows the code:

- The comment at lib/io_streams/delimited/reader.rb:31-33 says detection looks for CR LF or LF. The pattern `\r\n?|\n` at line 107 also accepts a lone CR as the delimiter (`Detection.Detect`, `ReaderProperties.CrLfAcrossFirstBoundary`).
- The comment at lib/io_streams/delimited/reader.rb:110 says the LF default handles one-line files. Such a file is not delivered as a record: the LF never comes, and the whole input stays the fragment that is dropped at the end (`ReaderProperties.ShortUnterminatedInput`).
- The comment at lib/io_streams/delimited/reader.rb:91-92 says `read_chunk` returns 0 at the end of the stream. Line 102 returns the size of the chunk after stripping, so a chunk that strips to nothing also returns 0 and ends `each_line`, even if the stream holds more (`ReaderProperties.StopsAtEmptyChunk`).
- The comment at lib/io_streams/delimited/reader.rb:42 says `buffer_size` must hold the entire first line and its delimiter, and line 114 raises when no CR or LF is found within it. Only a first read larger than `buffer_size` can raise, though: a stream that never answers more than `buffer_size` bytes is never rejected (`ReaderProperties.ConformingStreamNeverFails`), however long its first line. A first chunk without CR or LF takes the LF default at lines 109-111, so on CR LF data every record then keeps its CR.

## Model

| member | source | states |
|---|---|---|
| Printable.Filter | lib/io_streams/delimited/reader.rb:99 | the stripped chunk is no longer than the chunk and holds only printable bytes (0x20 to 0x7E), CR and LF |
| Printable.FilterCounts | lib/io_streams/delimited/reader.rb:99 | every printable, CR or LF byte is kept as often as it occurs; every other byte is dropped |
| Printable.FilterAppend | lib/io_streams/delimited/reader.rb:99 | stripping commutes with concatenation, so the kept bytes stay in their order |
| Printable.FilterKeepsKept | lib/io_streams/delimited/reader.rb:99 | a chunk made only of kept bytes passes through unchanged |
| Printable.FilterIdempotent | lib/io_streams/delimited/reader.rb:99 | stripping twice is stripping once |
| Printable.FilterDropsControl | lib/io_streams/delimited/reader.rb:99 | tab and NUL never survive stripping, and nothing at or above 0x7F does |
| Detection.Detect | lib/io_streams/delimited/reader.rb:106-116 | CR LF exactly when the first terminator is a CR followed by LF; CR exactly when it is a CR not followed by LF; LF exactly when it is LF, or when there is none and the buffer is within `buffer_size`; an error exactly when there is none and the buffer is larger |
| Records.SplitLines | lib/io_streams/delimited/reader.rb:76-84 | the records, each followed by the delimiter, then the fragment, give back the buffer in order; each record stops at the first occurrence of the delimiter; the fragment holds none |
| Records.SplitUnique | lib/io_streams/delimited/reader.rb:76-84 | any records and fragment meeting that contract are the split, so records joined by the delimiter come back exactly, with no empty record after a final delimiter |
| Records.SplitJoined | lib/io_streams/delimited/reader.rb:76-84 | splitting records joined by the delimiter, followed by any text, gives those records and then the split of the text |
| Records.SplitAfterRecord | lib/io_streams/delimited/reader.rb:76-83 | a record that ends at its first delimiter is emitted first, whatever follows it |
| Records.AdjacentDelimiters | lib/io_streams/delimited/reader.rb:77-79 | a piece that is just the delimiter gives an empty record |
| Records.SplitAppend | lib/io_streams/delimited/reader.rb:76-84 | appending bytes leaves the complete records untouched and only re-splits the fragment with the new bytes |
| Options.Configure | lib/io_streams/delimited/reader.rb:54-61 | an error, naming exactly the unknown keys, exactly when there is a key other than the four known ones; otherwise the delimiter is absent exactly when not given; the buffer size is 65536 when absent, nil or false and the given number otherwise; stripping and UTF-8 are on unless given as an explicit false |
| Options.DefaultConfig | lib/io_streams/delimited/reader.rb:55-60 | no options give no delimiter, 65536, stripping on and UTF-8 on |
| DelimitedReader.ChunkStream.Read | lib/io_streams/delimited/reader.rb:94-96 | the next chunk and one step on, or nil at the end with nothing consumed |
| DelimitedReader.Reader.constructor | lib/io_streams/delimited/reader.rb:52-65 | a reader with the accepted settings, an empty buffer, and nothing read |
| DelimitedReader.Reader.ReadChunk | lib/io_streams/delimited/reader.rb:93-103 | at the end: 0 and the buffer unchanged; otherwise the buffer grows by the chunk, stripped when asked, and the result is that appended length |
| DelimitedReader.Cycles | lib/io_streams/delimited/reader.rb:68-86 | a delimiter once known stays the same and is never empty; a raise emits nothing and happens on the first chunk taken; no more chunks are taken than exist |
| DelimitedReader.CycleStops | lib/io_streams/delimited/reader.rb:71 | the end of the stream, or a chunk that strips to nothing, ends the loop with nothing emitted and the buffer kept |
| DelimitedReader.CycleFails | lib/io_streams/delimited/reader.rb:73 | when detection raises, nothing is emitted and the buffer keeps the chunk |
| DelimitedReader.CycleSplits | lib/io_streams/delimited/reader.rb:73-84 | a cycle with a known or detected delimiter emits the complete records of buffer plus chunk, then continues from its fragment with that delimiter |
| DelimitedReader.Reader.NextCycle | lib/io_streams/delimited/reader.rb:70-84 | one turn of the loop: when it goes on, it took one chunk that is not empty once stripped, the delimiter is the one known before or else the one `Detect` finds on buffer plus chunk, the records emitted are the complete records of splitting buffer plus chunk and the new buffer is that split's fragment, and the rest of the run is unchanged; when it stops, it is where `Cycles` stops |
| DelimitedReader.Reader.EachLine | lib/io_streams/delimited/reader.rb:68-86 | the records, the final buffer and delimiter, the raise and the chunks taken are exactly those of `Cycles` over the remaining chunks |
| ReaderProperties.Conservation | lib/io_streams/delimited/reader.rb:76-84 | the records with their delimiter put back, then the final buffer, equal the starting buffer followed by every byte appended |
| ReaderProperties.CarriedFragmentFree | lib/io_streams/delimited/reader.rb:81-84 | after a cycle has run, the buffer carried on never contains the delimiter |
| ReaderProperties.DetectionOnFirstChunk | lib/io_streams/delimited/reader.rb:73 | without a delimiter, detection on the first chunk, when it is not empty once stripped, decides both the raise and the delimiter used from then on |
| ReaderProperties.SplitAcrossChunks | lib/io_streams/delimited/reader.rb:69-85 | with the delimiter fixed, the cycles emit the records of splitting all the data seen at once and keep its fragment |
| ReaderProperties.LiveIsWhole | lib/io_streams/delimited/reader.rb:99-102 | when no chunk strips to nothing, the data seen is the whole stream, stripped |
| ReaderProperties.ChunkBoundariesTransparent | lib/io_streams/delimited/reader.rb:69-85 | with a delimiter supplied and no chunk stripped to nothing, the records are the complete pieces of splitting the whole stream once, even with a delimiter cut between chunks |
| ReaderProperties.Rechunking | lib/io_streams/delimited/reader.rb:69-85 | with a delimiter supplied, an empty starting buffer and no chunk in either cutting stripped to nothing, two cuttings of the same stream give the same records and the same leftover; under detection they can differ (`ReaderProperties.CrLfAcrossFirstBoundary`) |
| ReaderProperties.JoinedRecordsComeBack | lib/io_streams/delimited/reader.rb:76-84 | records joined by a supplied delimiter come back exactly and in order, however the stream is cut and whatever its bytes when stripping is off; an unterminated tail stays in the buffer |
| ReaderProperties.StopsAtEmptyChunk | lib/io_streams/delimited/reader.rb:71 | a chunk that strips to nothing ends the loop: what follows it changes nothing and is never read |
| ReaderProperties.FailsOnlyOnOversizedFirstRead | lib/io_streams/delimited/reader.rb:107-114 | the reader raises exactly when no delimiter is known and the first chunk is not empty once stripped and, behind the buffer, has no CR or LF and exceeds `buffer_size` |
| ReaderProperties.ConformingStreamNeverFails | lib/io_streams/delimited/reader.rb:109-111 | a fresh reader over a stream that never answers more than `buffer_size` bytes never raises |
| ReaderProperties.OneChunk | lib/io_streams/delimited/reader.rb:69-85 | over a single chunk, the reader emits the records of splitting that chunk and keeps its fragment |
| ReaderProperties.ThreeLines | lib/io_streams/delimited/reader.rb:70-84 | with default options, "one LF two LF three" detects LF, yields "one" and "two", and leaves "three" unemitted |
| ReaderProperties.ShortUnterminatedInput | lib/io_streams/delimited/reader.rb:109-111 | a short input with no CR or LF detects LF and emits nothing; the whole input is the dropped fragment |
| ReaderProperties.StripThenSplit | lib/io_streams/delimited/reader.rb:99 | with stripping and CR LF, "x NUL y CR LF z" yields "x y" and keeps "z" pending |
| ReaderProperties.CrLfAcrossFirstBoundary | lib/io_streams/delimited/reader.rb:107 | a first chunk ending in CR detects a lone CR even if LF opens the next chunk; later CR LF pairs then yield records that start with LF |

## Left out

- `Reader.open` (lib/io_streams/delimited/reader.rb:7-15) opens files and closes handles. It is I/O plumbing and is not modelled.
- The real `read` of the input stream is not modelled. The stream is the list of chunks it answers, followed by `nil`, and the requested size is not passed to it. Whether a stream respects `buffer_size` is a hypothesis of `ReaderProperties.ConformingStreamNeverFails`, so the raise stays reachable.
- I/O errors raised by the stream are not modelled.
- An error raised inside the caller's block, or an early exit from it, is not modelled. `each_line` returns its records instead of calling a block.
- `force_encoding` only retags strings, so bytes stay unchanged, and the `utf8` flag is stored but changes nothing in the model. The source raises in three cases the model does not capture:
  - With `utf8` on and stripping off, line 101 tags a chunk holding invalid UTF-8 as UTF-8. The match at line 107 then raises `ArgumentError` (invalid byte sequence), where `Detect` returns a delimiter.
  - Line 63 retags the caller's own delimiter string in place. A frozen delimiter string makes construction raise `FrozenError`. Neither the retagging nor that raise is modelled.
  - With `utf8` off and stripping off, a chunk holding a byte at or above 0x80 makes the buffer binary (ASCII-8BIT), while a delimiter with a non-ASCII character stays UTF-8 because line 63 retags it only when `utf8` is on. The split at line 76 then raises `Encoding::CompatibilityError`, where `SplitLines` splits the bytes.
- `[[:print:]]` is taken as ASCII 0x20 to 0x7E, its meaning for the binary strings `read` returns. Onigmo's Unicode classes and invalid-UTF-8 errors from `scan` are not modelled.
- `@buffer.size` counts characters once the buffer is tagged UTF-8. `ReadChunk` and `Detect` count bytes, which differs for multi-byte characters.
- Options.Configure: requires `WellTyped`. The delimiter must be absent, nil or a non-empty byte string, and `buffer_size` must be absent, nil, false or a number of at least 0. The following are not modelled:
  - an empty delimiter, which selects Ruby's paragraph mode;
  - Symbol and other non-string values;
  - a negative or non-integer size;
  - a delimiter given as `false`, which Ruby would treat like `nil`.
- The texts of the two error messages are not modelled, only that the errors occur.
- The `delimiter` accessor is a public field of `Reader`. Assigning it from outside between calls is not modelled beyond that.
- Running the same reader twice over the same data is trivially deterministic, since every operation is a function of its inputs. No lemma states it.
