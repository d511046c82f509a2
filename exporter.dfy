/** Exporting a filled form: the output file name and the write step. */
module Exporter {
  import opened Wrappers
  import opened FormModel
  import Loader

  /** `json.MarshalIndent` is a foreign library call: a function from a form to its text or an error. */
  type Marshaller = Form -> Result<string, string>

  /** Writing a file is I/O: given a file name and contents it reports an error or nothing. */
  type FileWriter = (string, string) -> Option<string>

  const SubmittedSuffix: string := "_submitted.json"

  /** The output file name: the form's name followed by `_submitted.json`. */
  function SubmittedFileName(name: string): (fileName: string)
    ensures |fileName| == |name| + |SubmittedSuffix|
    ensures fileName[..|name|] == name
    ensures fileName[|name|..] == SubmittedSuffix
  {
    name + SubmittedSuffix
  }

  /** Different form names never share an output file. */
  lemma SubmittedFileNameInjective(a: string, b: string)
    requires SubmittedFileName(a) == SubmittedFileName(b)
    ensures a == b
  {
  }

  /** The output file, if imported again, is read with the JSON decoder. */
  lemma SubmittedFileIsJson(name: string)
    ensures Loader.FormatOf(SubmittedFileName(name)) == Loader.Json
  {
  }

  /**
   * `writeFormToFile`: encode the form again, then write the encoding to
   * `fileName`. It fails when either step fails, with that step's error.
   */
  function WriteFormToFile(fileName: string, form: Form, marshal: Marshaller, writeFile: FileWriter)
    : (err: Option<string>)
    ensures err.None? <==> marshal(form).Success? && writeFile(fileName, marshal(form).value).None?
    ensures marshal(form).Failure? ==> err == Some(marshal(form).error)
    ensures marshal(form).Success? ==> err == writeFile(fileName, marshal(form).value)
  {
    match marshal(form)
    case Failure(e) => Some(e)
    case Success(json) => writeFile(fileName, json)
  }
}
