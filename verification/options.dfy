/**
 * The options hash of `Reader#initialize`: which keys are accepted, and the
 * defaults put in place of `nil`.
 */
module Options {
  import opened Wrappers
  import opened Bytes

  /** The Ruby values an option can hold. */
  datatype Value = Nil | Flag(flag: bool) | Number(number: int) | Text(text: seq<byte>)

  /** Option keys are symbol names. */
  type Options = map<string, Value>

  const DelimiterKey: string := "delimiter"
  const BufferSizeKey: string := "buffer_size"
  const StripKey: string := "strip_non_printable"
  const Utf8Key: string := "utf8"
  const KnownKeys: set<string> := {DelimiterKey, BufferSizeKey, StripKey, Utf8Key}

  const DefaultBufferSize: nat := 65536

  datatype Config = Config(delimiter: Option<seq<byte>>, bufferSize: nat, strip: bool, utf8: bool)

  /** The `ArgumentError` raised for keys the reader does not know. */
  datatype ConfigError = UnknownOptions(keys: set<string>)

  /** The key is absent or holds `nil`. */
  predicate Unset(options: Options, key: string) {
    key !in options || options[key] == Nil
  }

  /** The key holds an explicit `false`. */
  predicate ExplicitFalse(options: Options, key: string) {
    key in options && options[key] == Flag(false)
  }

  /** The documented types: a delimiter is a non-empty string, a buffer size a non-negative integer. */
  predicate WellTyped(options: Options) {
    && (DelimiterKey in options ==>
          options[DelimiterKey] == Nil || (options[DelimiterKey].Text? && options[DelimiterKey].text != []))
    && (BufferSizeKey in options ==>
          Unset(options, BufferSizeKey) || ExplicitFalse(options, BufferSizeKey) ||
          (options[BufferSizeKey].Number? && options[BufferSizeKey].number >= 0))
  }

  /**
   * Any key outside the four known ones is an error. A missing or `nil`
   * delimiter means "detect it"; the buffer size falls back to 65536 when it
   * is missing, `nil` or `false` (Ruby's `||`); the two flags are on unless
   * they are an explicit `false`, since only `nil` is replaced by `true` and
   * every other value is truthy.
   */
  function Configure(options: Options): (r: Result<Config, ConfigError>)
    requires WellTyped(options)
    ensures r.Failure? <==> exists key :: key in options && key !in KnownKeys
    ensures r.Failure? ==> r.error.keys == options.Keys - KnownKeys
    ensures r.Success? ==> (r.value.delimiter.None? <==> Unset(options, DelimiterKey))
    ensures r.Success? && r.value.delimiter.Some? ==>
      options[DelimiterKey] == Text(r.value.delimiter.value) && r.value.delimiter.value != []
    ensures r.Success? && (Unset(options, BufferSizeKey) || ExplicitFalse(options, BufferSizeKey)) ==>
      r.value.bufferSize == DefaultBufferSize
    ensures r.Success? && BufferSizeKey in options && options[BufferSizeKey].Number? ==>
      r.value.bufferSize == options[BufferSizeKey].number
    ensures r.Success? ==> (r.value.strip <==> !ExplicitFalse(options, StripKey))
    ensures r.Success? ==> (r.value.utf8 <==> !ExplicitFalse(options, Utf8Key))
  {
    var unknown := options.Keys - KnownKeys;
    if unknown != {} then
      assert exists key :: key in unknown;
      Failure(UnknownOptions(unknown))
    else
      var delimiter := if Unset(options, DelimiterKey) then None else Some(options[DelimiterKey].text);
      var bufferSize :=
        if BufferSizeKey in options && options[BufferSizeKey].Number? then options[BufferSizeKey].number as nat
        else DefaultBufferSize;
      Success(Config(delimiter, bufferSize, !ExplicitFalse(options, StripKey), !ExplicitFalse(options, Utf8Key)))
  }

  /** With no options at all: detect the delimiter, 64 KiB reads, strip and tag as UTF-8. */
  lemma DefaultConfig()
    ensures Configure(map[]) == Success(Config(None, 65536, true, true))
  {
  }
}
