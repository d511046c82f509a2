/** Importing a form definition: read the file, pick a decoder by suffix, decode. */
module Loader {
  import opened Wrappers
  import opened Text
  import opened FormModel

  newtype byte = b: int | 0 <= b < 256
  type Bytes = seq<byte>

  /** The decoder a path selects. */
  datatype Format = Json | Yaml | Unsupported

  /** Why an import failed. */
  datatype ImportError =
    | ReadFailed(cause: string)
    | UnsupportedFormat
    | DecodeFailed(cause: string)

  /** Decoding is a foreign library call: a function from file contents to a form or an error. */
  type Decoder = Bytes -> Result<Form, string>

  /** The suffix dispatch of `importForm`: `.json` first, then `.yaml` or `.yml`. */
  function FormatOf(path: string): (f: Format)
    ensures f == Json <==> HasSuffix(path, ".json")
    ensures f == Yaml <==> HasSuffix(path, ".yaml") || HasSuffix(path, ".yml")
    ensures f == Unsupported <==> !HasSuffix(path, ".json") && !HasSuffix(path, ".yaml") && !HasSuffix(path, ".yml")
  {
    SuffixesExclusive(path);
    if HasSuffix(path, ".json") then Json
    else if HasSuffix(path, ".yaml") || HasSuffix(path, ".yml") then Yaml
    else Unsupported
  }

  /**
   * `importForm`. `read` is what reading the file at `path` gave; a read
   * failure is reported before the suffix is looked at.
   */
  function ImportForm(path: string, read: Result<Bytes, string>, decodeJson: Decoder, decodeYaml: Decoder)
    : (r: Result<Form, ImportError>)
    ensures read.Failure? ==> r == Failure(ReadFailed(read.error))
    ensures read.Success? && FormatOf(path) == Unsupported ==> r == Failure(UnsupportedFormat)
    ensures r.Success? <==>
      read.Success? &&
      ((FormatOf(path) == Json && decodeJson(read.value).Success?) ||
       (FormatOf(path) == Yaml && decodeYaml(read.value).Success?))
    ensures r.Success? && FormatOf(path) == Json ==> decodeJson(read.value) == Success(r.value)
    ensures r.Success? && FormatOf(path) == Yaml ==> decodeYaml(read.value) == Success(r.value)
    ensures read.Success? && FormatOf(path) == Json && decodeJson(read.value).Failure? ==>
      r == Failure(DecodeFailed(decodeJson(read.value).error))
    ensures read.Success? && FormatOf(path) == Yaml && decodeYaml(read.value).Failure? ==>
      r == Failure(DecodeFailed(decodeYaml(read.value).error))
  {
    match read
    case Failure(e) => Failure(ReadFailed(e))
    case Success(content) =>
      var format := FormatOf(path);
      if format == Unsupported then Failure(UnsupportedFormat)
      else
        var decoded := if format == Json then decodeJson(content) else decodeYaml(content);
        match decoded
        case Failure(e) => Failure(DecodeFailed(e))
        case Success(form) => Success(form)
  }

  /** A path with a suffix ends in that suffix's last character. */
  lemma SuffixLastChar(path: string, suffix: string)
    ensures HasSuffix(path, suffix) && |suffix| > 0 ==> path[|path| - 1] == suffix[|suffix| - 1]
  {
  }

  /** A path cannot end in both `.json` and one of the YAML suffixes. */
  lemma SuffixesExclusive(path: string)
    ensures HasSuffix(path, ".json") ==> !HasSuffix(path, ".yaml") && !HasSuffix(path, ".yml")
  {
  }

  /** Appending a known extension selects its decoder, whatever the stem. */
  lemma FormatOfExtension(stem: string)
    ensures FormatOf(stem + ".json") == Json
    ensures FormatOf(stem + ".yaml") == Yaml
    ensures FormatOf(stem + ".yml") == Yaml
  {
    HasSuffixOfAppend(stem, ".json");
    HasSuffixOfAppend(stem, ".yaml");
    HasSuffixOfAppend(stem, ".yml");
    SuffixLastChar(stem + ".yaml", ".json");
    SuffixLastChar(stem + ".yml", ".json");
  }

  /** A path whose last character is neither `n` nor `l` has no supported suffix. */
  lemma NoSupportedSuffix(path: string)
    requires |path| > 0 && path[|path| - 1] != 'n' && path[|path| - 1] != 'l'
    ensures FormatOf(path) == Unsupported
  {
  }

  /** Suffixes are compared case-sensitively: an upper-case extension is unsupported. */
  lemma FormatOfIsCaseSensitive(stem: string)
    ensures FormatOf(stem + ".JSON") == Unsupported
    ensures FormatOf(stem + ".YAML") == Unsupported
    ensures FormatOf(stem + ".YML") == Unsupported
  {
    NoSupportedSuffix(stem + ".JSON");
    NoSupportedSuffix(stem + ".YAML");
    NoSupportedSuffix(stem + ".YML");
  }

  /** A read failure wins over the suffix check, even for an unsupported path. */
  lemma ReadFailureFirst(path: string, cause: string, decodeJson: Decoder, decodeYaml: Decoder)
    ensures ImportForm(path, Failure(cause), decodeJson, decodeYaml) == Failure(ReadFailed(cause))
  {
  }
}
