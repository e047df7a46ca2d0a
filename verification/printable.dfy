/**
 * The `strip_non_printable` filter: `chunk.scan(/[[:print:]]|\r|\n/).join`.
 * `read` hands back binary (ASCII-8BIT) strings, where `[[:print:]]` matches
 * exactly the ASCII graphic characters and the space.
 */
module Printable {
  import opened Bytes

  predicate IsPrintable(b: byte) {
    0x20 <= b <= 0x7E
  }

  /** The bytes the filter's pattern matches. */
  predicate Kept(b: byte) {
    IsPrintable(b) || b == CR || b == LF
  }

  /** The kept bytes of `s`, in their order in `s`. */
  function Filter(s: seq<byte>): (r: seq<byte>)
    ensures |r| <= |s|
    ensures forall i :: 0 <= i < |r| ==> Kept(r[i])
  {
    if s == [] then []
    else
      assert s == [s[0]] + s[1..];
      (if Kept(s[0]) then [s[0]] else []) + Filter(s[1..])
  }

  /** Filtering commutes with concatenation, so it keeps the order of the bytes it keeps. */
  lemma {:induction false} FilterAppend(a: seq<byte>, b: seq<byte>)
    ensures Filter(a + b) == Filter(a) + Filter(b)
  {
    if a == [] {
      assert a + b == b;
    } else {
      var head := if Kept(a[0]) then [a[0]] else [];
      assert (a + b)[0] == a[0];
      assert (a + b)[1..] == a[1..] + b;
      FilterAppend(a[1..], b);
      assert Filter(a + b) == head + (Filter(a[1..]) + Filter(b));
    }
  }

  /** Filtering keeps every occurrence of a kept byte and none of the others. */
  lemma {:induction false} FilterCounts(s: seq<byte>)
    ensures forall b :: multiset(Filter(s))[b] == if Kept(b) then multiset(s)[b] else 0
  {
    if s != [] {
      FilterCounts(s[1..]);
      assert s == [s[0]] + s[1..];
    }
  }

  /** A string of kept bytes passes through unchanged. */
  lemma {:induction false} FilterKeepsKept(s: seq<byte>)
    requires forall i :: 0 <= i < |s| ==> Kept(s[i])
    ensures Filter(s) == s
  {
    if s != [] {
      FilterKeepsKept(s[1..]);
    }
  }

  /** Stripping twice strips nothing more. */
  lemma {:induction false} FilterIdempotent(s: seq<byte>)
    ensures Filter(Filter(s)) == Filter(s)
  {
    FilterKeepsKept(Filter(s));
  }

  /** A byte that is dropped once is dropped from every string: tab and NUL among them. */
  lemma FilterDropsControl(s: seq<byte>)
    ensures TAB !in Filter(s) && NUL !in Filter(s)
    ensures forall i :: 0 <= i < |Filter(s)| ==> Filter(s)[i] < 0x7F
  {
  }
}
