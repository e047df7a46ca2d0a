/**
 * Record splitting: `@buffer.each_line(delimiter)` with the `end_with?` test,
 * which emits each piece ending in the delimiter (stripped) and keeps the rest.
 */
module Records {
  import opened Wrappers
  import opened Bytes

  /** The complete records of a buffer, in order, and the unterminated fragment after them. */
  datatype Split = Split(records: seq<seq<byte>>, partial: seq<byte>)

  /** The record `r` followed by `d` contains `d` only at its end: `d` was found at its leftmost occurrence. */
  predicate EndsAtFirst(r: seq<byte>, d: seq<byte>)
    requires d != []
  {
    Free(r + d[..|d| - 1], d)
  }

  /**
   * Split after each leftmost non-overlapping occurrence of `d`. Laid back
   * together with `d` after each record, the pieces give `s` again; each record
   * stops at the first occurrence of `d`; the fragment holds none.
   */
  function SplitLines(s: seq<byte>, d: seq<byte>): (r: Split)
    requires d != []
    ensures Join(r.records, d) + r.partial == s
    ensures forall k :: 0 <= k < |r.records| ==> EndsAtFirst(r.records[k], d)
    ensures Free(r.partial, d)
    decreases |s|
  {
    match IndexOf(s, d)
    case None => Split([], s)
    case Some(i) =>
      var rest := SplitLines(s[i + |d|..], d);
      SplitStep(s, d, i, rest);
      Split([s[..i]] + rest.records, rest.partial)
  }

  /** One step of `SplitLines`: the piece before the first occurrence, then the split of what follows it. */
  lemma SplitStep(s: seq<byte>, d: seq<byte>, i: nat, rest: Split)
    requires d != [] && IndexOf(s, d) == Some(i)
    requires Join(rest.records, d) + rest.partial == s[i + |d|..]
    requires forall k :: 0 <= k < |rest.records| ==> EndsAtFirst(rest.records[k], d)
    ensures Join([s[..i]] + rest.records, d) + rest.partial == s
    ensures forall k :: 0 <= k < |[s[..i]] + rest.records| ==> EndsAtFirst(([s[..i]] + rest.records)[k], d)
  {
    assert Join([s[..i]] + rest.records, d) + rest.partial == s by {
      Rejoin(s[..i], s[i + |d|..], d, rest.records, rest.partial);
      assert OccursAt(s, d, i);
      Slices(s, i, i + |d|);
    }
    FirstPieceEndsAtFirst(s, d, i);
    forall k | 0 <= k < |[s[..i]] + rest.records|
      ensures EndsAtFirst(([s[..i]] + rest.records)[k], d)
    {
      if k > 0 {
        assert ([s[..i]] + rest.records)[k] == rest.records[k - 1];
      }
    }
  }

  /** A record that stops at the first occurrence of `d` is split off first, whatever follows it. */
  lemma {:induction false} SplitAfterRecord(r: seq<byte>, d: seq<byte>, t: seq<byte>)
    requires d != [] && EndsAtFirst(r, d)
    ensures SplitLines(r + d + t, d) == Split([r] + SplitLines(t, d).records, SplitLines(t, d).partial)
  {
    var s := r + d + t;
    assert s[|r|..|r| + |d|] == d;
    assert OccursAt(s, d, |r|);
    var k :| IndexOf(s, d) == Some(k);
    if k < |r| {
      var x := r + d[..|d| - 1];
      assert x[k..k + |d|] == s[k..k + |d|];
      assert OccursAt(x, d, k);
      assert false;
    }
    assert s[..|r|] == r;
    assert s[|r| + |d|..] == t;
  }

  /** Records laid out with their delimiters are split back off one by one, in order. */
  lemma {:induction false} SplitJoined(rs: seq<seq<byte>>, d: seq<byte>, t: seq<byte>)
    requires d != []
    requires forall k :: 0 <= k < |rs| ==> EndsAtFirst(rs[k], d)
    ensures SplitLines(Join(rs, d) + t, d) == Split(rs + SplitLines(t, d).records, SplitLines(t, d).partial)
  {
    var st := SplitLines(t, d);
    if rs == [] {
      assert Join(rs, d) + t == t;
    } else {
      var tail := Join(rs[1..], d) + t;
      SplitJoined(rs[1..], d, t);
      JoinUnfold(rs, d, t);
      SplitAfterRecord(rs[0], d, tail);
      ConsAppend(rs, st.records);
    }
  }

  /**
   * The contract of `SplitLines` determines it: any records and fragment that
   * satisfy it are the ones it returns. In particular records joined by `d`
   * come back exactly, with no empty record after a final delimiter.
   */
  lemma SplitUnique(s: seq<byte>, d: seq<byte>, rs: seq<seq<byte>>, p: seq<byte>)
    requires d != [] && Join(rs, d) + p == s
    requires forall k :: 0 <= k < |rs| ==> EndsAtFirst(rs[k], d)
    requires Free(p, d)
    ensures SplitLines(s, d) == Split(rs, p)
  {
    SplitJoined(rs, d, p);
    assert rs + [] == rs;
  }

  /** Two delimiters in a row enclose an empty record. */
  lemma AdjacentDelimiters(d: seq<byte>, t: seq<byte>)
    requires d != []
    ensures SplitLines(d + t, d).records == [[]] + SplitLines(t, d).records
  {
    assert d[..|d| - 1] == [] + d[..|d| - 1];
    assert Free(d[..|d| - 1], d);
    SplitAfterRecord([], d, t);
    assert [] + d + t == d + t;
  }

  /**
   * Appending bytes to a buffer never changes the records already complete in
   * it: only its fragment is split again, with the new bytes behind it.
   */
  lemma SplitAppend(s: seq<byte>, c: seq<byte>, d: seq<byte>)
    requires d != []
    ensures SplitLines(s + c, d).records ==
      SplitLines(s, d).records + SplitLines(SplitLines(s, d).partial + c, d).records
    ensures SplitLines(s + c, d).partial == SplitLines(SplitLines(s, d).partial + c, d).partial
  {
    var sp := SplitLines(s, d);
    assert s + c == Join(sp.records, d) + (sp.partial + c) by {
      assert Join(sp.records, d) + sp.partial == s;
    }
    SplitJoined(sp.records, d, sp.partial + c);
  }

  lemma FirstPieceEndsAtFirst(s: seq<byte>, d: seq<byte>, i: nat)
    requires d != [] && IndexOf(s, d) == Some(i)
    ensures EndsAtFirst(s[..i], d)
  {
    var x := s[..i] + d[..|d| - 1];
    assert x == s[..i + |d| - 1];
    forall j | 0 <= j <= |x|
      ensures !OccursAt(x, d, j)
    {
      if OccursAt(x, d, j) {
        assert x[j..j + |d|] == s[j..j + |d|];
        assert OccursAt(s, d, j);
      }
    }
  }

  lemma Rejoin(head: seq<byte>, tail: seq<byte>, d: seq<byte>, rs: seq<seq<byte>>, p: seq<byte>)
    requires Join(rs, d) + p == tail
    ensures Join([head] + rs, d) + p == head + d + tail
  {
    JoinCons(head, rs, d);
  }

  lemma Slices(s: seq<byte>, i: nat, j: nat)
    requires i <= j <= |s|
    ensures s == s[..i] + s[i..j] + s[j..]
  {
    assert s[..j] == s[..i] + s[i..j];
    assert s == s[..j] + s[j..];
  }

  lemma JoinUnfold(rs: seq<seq<byte>>, d: seq<byte>, t: seq<byte>)
    requires rs != []
    ensures Join(rs, d) + t == rs[0] + d + (Join(rs[1..], d) + t)
  {
  }

  lemma ConsAppend<T>(xs: seq<T>, ys: seq<T>)
    requires xs != []
    ensures [xs[0]] + (xs[1..] + ys) == xs + ys
  {
    assert [xs[0]] + xs[1..] == xs;
  }

  lemma JoinCons(r: seq<byte>, rs: seq<seq<byte>>, d: seq<byte>)
    ensures Join([r] + rs, d) == r + d + Join(rs, d)
  {
    assert ([r] + rs)[1..] == rs;
  }
}
