/** Byte strings and the delimiter search the reader is built on. */
module Bytes {
  import opened Wrappers

  newtype byte = x: int | 0 <= x < 0x100

  const NUL: byte := 0x00
  const TAB: byte := 0x09
  const LF: byte := 0x0A
  const CR: byte := 0x0D

  /** `d` occurs in `s` starting at index `i`. */
  predicate OccursAt(s: seq<byte>, d: seq<byte>, i: int) {
    0 <= i && i + |d| <= |s| && s[i..i + |d|] == d
  }

  /** `s` holds no occurrence of `d`. */
  predicate Free(s: seq<byte>, d: seq<byte>) {
    forall i :: 0 <= i <= |s| ==> !OccursAt(s, d, i)
  }

  /** The leftmost occurrence of `d` in `s` at or after `from`, if any. */
  function IndexFrom(s: seq<byte>, d: seq<byte>, from: nat): (r: Option<nat>)
    ensures r.Some? ==> from <= r.value && OccursAt(s, d, r.value)
    ensures r.Some? ==> forall j :: from <= j < r.value ==> !OccursAt(s, d, j)
    ensures r.None? ==> forall j :: from <= j ==> !OccursAt(s, d, j)
    decreases |s| - from
  {
    if from + |d| > |s| then None
    else if s[from..from + |d|] == d then Some(from)
    else IndexFrom(s, d, from + 1)
  }

  /** The leftmost occurrence of `d` in `s`, the search Ruby's `String#each_line(sep)` performs. */
  function IndexOf(s: seq<byte>, d: seq<byte>): (r: Option<nat>)
    ensures r.Some? ==> OccursAt(s, d, r.value) && forall j :: 0 <= j < r.value ==> !OccursAt(s, d, j)
    ensures r.None? <==> Free(s, d)
  {
    IndexFrom(s, d, 0)
  }

  /** Every record followed by the delimiter, in order: the bytes the records took up in the stream. */
  function Join(records: seq<seq<byte>>, d: seq<byte>): seq<byte> {
    if records == [] then [] else records[0] + d + Join(records[1..], d)
  }

  /** The chunks laid end to end. */
  function Concat(chunks: seq<seq<byte>>): seq<byte> {
    if chunks == [] then [] else chunks[0] + Concat(chunks[1..])
  }
}
