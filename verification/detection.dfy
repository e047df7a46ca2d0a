/** Delimiter auto-detection: `detect_delimiter`, the regular expression `/\r\n?|\n/` over the buffer. */
module Detection {
  import opened Wrappers
  import opened Bytes

  predicate IsTerminator(b: byte) {
    b == CR || b == LF
  }

  /** Index `i` holds the first CR or LF of `s`: where the pattern's leftmost match starts. */
  predicate FirstTerminator(s: seq<byte>, i: int) {
    0 <= i < |s| && IsTerminator(s[i]) && forall j :: 0 <= j < i ==> !IsTerminator(s[j])
  }

  predicate NoTerminator(s: seq<byte>) {
    forall i :: 0 <= i < |s| ==> !IsTerminator(s[i])
  }

  /** A CR immediately followed by an LF starts at index `i`. */
  predicate CrLfAt(s: seq<byte>, i: int) {
    0 <= i && i + 1 < |s| && s[i] == CR && s[i + 1] == LF
  }

  /** The first CR or LF at or after `from`. */
  function FindTerminator(s: seq<byte>, from: nat): (r: Option<nat>)
    requires from <= |s|
    ensures r.Some? ==> from <= r.value < |s| && IsTerminator(s[r.value])
    ensures r.Some? ==> forall j :: from <= j < r.value ==> !IsTerminator(s[j])
    ensures r.None? ==> forall j :: from <= j < |s| ==> !IsTerminator(s[j])
    decreases |s| - from
  {
    if from == |s| then None
    else if IsTerminator(s[from]) then Some(from)
    else FindTerminator(s, from + 1)
  }

  /** The message names the buffer size and the bytes read; only the sizes are kept. */
  datatype DetectError = Malformed(bufferSize: nat, bytesRead: nat)

  /**
   * The delimiter is the leftmost match of `/\r\n?|\n/`: CR LF when the first
   * terminator is a CR followed by an LF, a lone CR, or an LF. With no
   * terminator a buffer of at most `bufferSize` bytes defaults to LF and a
   * longer one is malformed.
   */
  function Detect(buffer: seq<byte>, bufferSize: nat): (r: Result<seq<byte>, DetectError>)
    ensures r.Success? ==> r.value == [CR, LF] || r.value == [CR] || r.value == [LF]
    ensures r == Success([CR, LF]) <==> exists i :: FirstTerminator(buffer, i) && CrLfAt(buffer, i)
    ensures r == Success([CR]) <==>
      exists i :: FirstTerminator(buffer, i) && buffer[i] == CR && !CrLfAt(buffer, i)
    ensures r == Success([LF]) <==>
      (exists i :: FirstTerminator(buffer, i) && buffer[i] == LF) ||
      (NoTerminator(buffer) && |buffer| <= bufferSize)
    ensures r.Failure? <==> NoTerminator(buffer) && |buffer| > bufferSize
  {
    match FindTerminator(buffer, 0)
    case Some(i) =>
      assert FirstTerminator(buffer, i);
      if CrLfAt(buffer, i) then Success([CR, LF]) else Success([buffer[i]])
    case None =>
      if |buffer| <= bufferSize then Success([LF])
      else Failure(Malformed(bufferSize, |buffer|))
  }
}
