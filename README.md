# Form filler: a Dafny model

The program (`main.go`) loads a form definition — a name and an ordered list of
questions, each with optional multiple-choice options and a `required` flag —
from a JSON or YAML file, asks the questions on the console, validates each
answer against the question's options, retrying until an answer is accepted,
and writes the filled form to `<name>_submitted.json`. A two-level text menu
(`1. Import a form`, `2. Fill in a form`) drives this, written in Go with
`goto` labels and a global `selectedForm`.

The model has one module per part of the program:

- `Wrappers` — `Option` (a Go nil slice or pointer) and `Result`.
- `Text` — ASCII `ToLower` and a case-sensitive `HasSuffix`.
- `FormModel` — the `Question` and `Form` records, and `FormRecord`, a class
  that stands for the `*Form` pointer whose question slice is written in place.
  `Question.options` is an `Option`, because the code tells the nil list apart
  from the empty one.
- `Loader` — `importForm`: the read result comes first, then the suffix
  dispatch to the JSON or YAML decoder, then the decoder's result.
- `Exporter` — the output file name and `writeFormToFile`.
- `Collector` — `fillForm`. The `legalAnswer` scan is written as a loop
  (`IsLegalAnswer`). `Ask` and `FillFrom` are the reference definitions of the
  retry loop and of the loop over the questions. `FillSpec` is the whole call.
  `FillForm` is the imperative method with nested loops, writing the array in
  place, proved equal to `FillSpec`.
- `Session` — `main` as an explicit state machine. The modes are `Menu`
  (label `START`), `Importing` (label `IMPORT_FILE_LOOP`), `InnerMenu` (the menu
  shown after an import) and `Done`, with an `Option<Form>` slot for
  `selectedForm`; together they form a `State`. `Step` and `Run` are pure. `RunSession` is the imperative
  loop that keeps `selectedForm` as an object, fills it through `FillForm`, and
  is proved equal to `Run`.

Input is a finite sequence of lines. One line is read per menu choice, per path
and per answer attempt. Running out of lines ends filling with `OutOfInput` and
the session with `InputEnded`. Files, decoders, the JSON encoder and file writes
are fields of an `Env` value: `readFile`, `decodeJson`, `decodeYaml`, `marshal`
and `writeFile`. `readFile` is a fixed function of the path. This is sound
because the program writes a file only just before it ends, so no later read can
see the write.

Some behaviours of `main.go` are easy to miss, and the model keeps them:

- A present but empty options list rejects every answer, because validation
  at main.go:132 tests `!= nil` while the display at main.go:116 tests
  `len > 0`. Such a question shows no options line and can never be answered.
- The input is lower-cased (main.go:129) but the options are not, and they are
  compared byte for byte (main.go:137). So an option containing an upper-case
  letter can never be chosen.
- A question without an options list accepts any line, the empty line
  included, even when `required` is set: `required` only prints a notice
  (main.go:120-122, main.go:131).
- After "2" at the second menu, only a successful fill ends the program. An
  encoding error returns to the top menu (main.go:69-72). Choosing "2" at the
  top menu when a form is already imported falls out of the `switch` and ends
  the program without filling (main.go:78-82).

## Model

| member | source | states |
|---|---|---|
| `Text.ToLower` | main.go:129 | keeps the length, moves each ASCII upper-case letter up by 32 to its lower-case letter, and leaves every other character as it is |
| `Text.HasSuffix` | main.go:97-99 | holds exactly when the string is some stem followed by the suffix, compared case-sensitively |
| `Text.ToLowerIsLowered` | main.go:129 | the lower-cased input keeps its length and has no upper-case letter |
| `Text.LoweredIsFixedPoint` | main.go:129 | lower-casing leaves a string without upper-case letters unchanged |
| `Text.ToLowerIdempotent` | main.go:129 | lower-casing twice is lower-casing once |
| `Text.UpperNeverProduced` | main.go:129 | no input line lower-cases to a string holding an upper-case letter |
| `Text.HasSuffixOfAppend` | main.go:97-99 | a stem followed by a suffix has that suffix |
| `Loader.ImportForm` | main.go:89-110 | a read failure is returned whatever the path; then an unsupported suffix fails; a failing decoder's error is returned as `DecodeFailed`; it succeeds exactly when the read succeeded, the suffix is supported and the chosen decoder succeeded, and then it returns that decoder's form |
| `Loader.SuffixLastChar` | main.go:97-99 | a path with a suffix ends in the suffix's last character |
| `Loader.SuffixesExclusive` | main.go:97-99 | no path ends in both `.json` and `.yaml`/`.yml`, so the order of the checks does not matter |
| `Loader.FormatOf` | main.go:97-103 | JSON is chosen exactly for `.json`, YAML exactly for `.yaml` or `.yml`, and every other path is unsupported |
| `Loader.FormatOfExtension` | main.go:97-100 | any stem plus `.json` decodes as JSON; plus `.yaml` or `.yml`, as YAML |
| `Loader.NoSupportedSuffix` | main.go:97-103 | a path whose last character is neither `n` nor `l` is unsupported |
| `Loader.FormatOfIsCaseSensitive` | main.go:97-103 | `.JSON`, `.YAML` and `.YML` are unsupported: the suffix test is case-sensitive |
| `Loader.ReadFailureFirst` | main.go:90-93 | a read failure is reported before the suffix is examined |
| `Exporter.SubmittedFileName` | main.go:159 | the output name is the form's name followed by exactly `_submitted.json` |
| `Exporter.SubmittedFileNameInjective` | main.go:159 | two forms with different names never share an output file |
| `Exporter.SubmittedFileIsJson` | main.go:159 | the output file name selects the JSON decoder if it is imported again |
| `Exporter.WriteFormToFile` | main.go:167-180 | writing succeeds exactly when encoding and then writing that encoding succeed; an encoding failure is returned as the error, and otherwise the write's own error is |
| `FormModel.FormRecord.constructor` | main.go:16-27 | a new form object holds exactly the given name and questions, in a fresh array |
| `Collector.Accepts` | main.go:131-141 | definition of validation: an answer is legal when the options list is absent or some option equals it byte for byte |
| `Collector.IsLegalAnswer` | main.go:131-141 | the flag computed by the scan over the options is true exactly when the options are absent or one of them equals the answer |
| `Collector.PromptFor` | main.go:114-122 | definition of what question `i` shows: number `i + 1`, its text, the options line only for a present non-empty list, and the notice only when required |
| `Collector.Ask` | main.go:124-148 | an accepted answer consumes at least one line and stays within the input |
| `Collector.AskTakesFirstAcceptable` | main.go:124-148 | the accepted answer is the first acceptable line, lower-cased, and every earlier line was rejected; input runs out exactly when no remaining line is acceptable |
| `Collector.PromptAgreesWithValidation` | main.go:116-140 | options are shown exactly when the question has a non-empty list; with no options shown but a list present, every line is rejected and the input runs out; with no list, the next line is accepted, the empty line too, whether or not the question is required |
| `Collector.AcceptedAnswerShape` | main.go:129-144 | an accepted answer has no upper-case letter and, when options are present, is one of them |
| `Collector.UpperCaseOptionNeverChosen` | main.go:129-137 | an option with an upper-case letter is never the accepted answer |
| `Collector.FillFrom` | main.go:113-149 | answering keeps the number of questions; a completed pass reads at least one line per question; running out stops at a question in range |
| `Collector.FillFromChangesOnlyAnswers` | main.go:113-149 | only `answer` fields change; questions already passed are untouched; when input runs out, the question it ran out on and all later ones are untouched |
| `Collector.FillFromAnswersLegal` | main.go:131-144 | every question answered holds a legal, lower-case answer that is one of the input lines, lower-cased |
| `Collector.FillSpec` | main.go:112-165 | filling keeps the form's name and question count; it runs out of input exactly when answering does; once all questions are answered it fails exactly when encoding fails, with the encoder's error, and otherwise submits `<name>_submitted.json`, writing the filled form there with the write's own outcome; the stored answers, and the next line after a completed pass, are those of answering the questions in order |
| `Collector.TakenAtShift` | main.go:113-148 | a line taken by a later question keeps its place when the previous question's line is put in front |
| `Collector.TakenAtFirst` | main.go:122-147 | the first question answered takes the first acceptable line from the current position, and stores it lower-cased |
| `Collector.TakesLinesInOrderStep` | main.go:113-148 | putting the first question's line in front of the rest's keeps all lines in index order, each its question's first acceptable line |
| `Collector.FillFromTakesLinesInOrder` | main.go:113-148 | questions are answered in index order, one line per attempt: each takes the first line after the previous question's line that it accepts, every line in between was rejected and retried on that question, the answer is that line lower-cased, a completed pass stops right after the last line taken, and on running out the current question rejected every remaining line |
| `Collector.FillSpecKeepsForm` | main.go:112-149 | text, options and required flag of every question are unchanged, and once all questions are answered each answer is legal and lower-case |
| `Collector.WriteFailureIsNotAnError` | main.go:159-164 | once answering and encoding succeed the call counts as submitted, whatever the write does |
| `Collector.FillForm` | main.go:112-165 | the in-place method leaves the form object holding exactly the form `FillSpec` gives, and returns its outcome and the next line |
| `Session.Import` | main.go:52 | definition: the import of a path reads that path and dispatches on it as `importForm` does |
| `Session.Step` | main.go:36-87 | a step keeps the slot invariant; it consumes a line unless the input is over; it never empties the slot; it changes the slot only on a successful import or a fill, and a fill keeps the form's name; a submission is named after the form in the slot |
| `Session.Run` | main.go:36-87 | every run ends, and a form once imported stays selected |
| `Session.SubmissionNamedAfterForm` | main.go:68-72 | a session that ends in a submission wrote the file named after the form it holds |
| `Session.NoImportNoSubmission` | main.go:46-86 | if no path can be imported, the slot stays empty and nothing is ever submitted |
| `Session.FailedImportKeepsSlot` | main.go:52-56 | a failed import returns to the menu with the earlier selection kept |
| `Session.SuccessfulImportSelects` | main.go:57-64 | a successful import selects the new form and shows the second menu |
| `Session.InvalidChoiceBackToMenu` | main.go:73-85 | any other choice at either menu returns to the top menu, keeping the slot |
| `Session.FillWithoutFormBackToMenu` | main.go:79-82 | "2" at the top menu with no form returns to the menu |
| `Session.FillAtTopMenuEndsProgram` | main.go:78-87 | "2" at the top menu with a form ends the program, unfilled, and reads nothing more |
| `Session.ImportFromTopMenu` | main.go:46-48 | "1" at the top menu asks for a path and keeps the selected form, if any, so another form can be imported after an encoding failure |
| `Session.ImportAgainFromInnerMenu` | main.go:66-67 | "1" at the second menu asks for another path |
| `Session.FillFromInnerMenu` | main.go:68-72 | "2" at the second menu fills the selected form; success ends the program, an encoding error returns to the top menu, and the filled form stays selected |
| `Session.LowerRed` | main.go:129 | `RED` lower-cases to `red` |
| `Session.LowerGreenBlue` | main.go:129 | `green` and `blue` are their own lower-case forms |
| `Session.SurveyLastStep` | main.go:113-148 | once the sample form's only question is answered, the pass is complete at the current line |
| `Session.SurveyAnswered` | main.go:124-148 | the sample form's answer `RED` is stored as `red`; `green` is rejected and `blue` is then stored |
| `Session.SurveyImported` | main.go:47-64 | importing `survey.json` from the top menu selects the sample form and shows the second menu |
| `Session.SurveyFilled` | main.go:112-165 | filling the sample form with those answers submits it as `Survey_submitted.json` with the lower-cased accepted answer |
| `Session.SurveyScenario` | main.go:36-87 | importing the sample form, choosing "2" and answering ends by exporting `Survey_submitted.json` with the lower-cased accepted answer |
| `Session.RunSession` | main.go:36-87 | the goto-driven loop over a mutable `selectedForm` ends in exactly the state `Run` gives |

## Left out

- File reading and writing (main.go:90, main.go:173) are the `Env` fields `readFile` and `writeFile`: abstract results, not I/O.
- JSON and YAML decoding and `json.MarshalIndent` (main.go:98, main.go:100, main.go:152, main.go:168) are foreign library calls, given as the `Env` fields `decodeJson`, `decodeYaml` and `marshal`. The field mapping, the 2-space indentation and the JSON text are not modelled. So the export/import round trip and the fidelity of decoding are not stated.
- Console output is not modelled: the menu text, error messages, "Form imported.", the thank-you line, the printed JSON and the `strings.Join` options line. The model keeps the encoder's error, not the "Error formatting filled form:" text built around it.
- `bufio.Scanner` is not modelled. The program makes a new scanner at every `START` and every answer attempt, and buffering can swallow lines. At end of input the scanner returns "" for ever. The model reads one line per read from a finite sequence.
- The program loops for ever on endless invalid input. At end of input every read gives "": a question that rejects "" retries it for ever, a menu takes it as an invalid choice and shows the top menu again for ever, and the path prompt reads it once, fails to import it (main.go:90-92) and goes back to the top menu, which then loops. The model stops instead, with `OutOfInput` and `InputEnded`.
- End of input is not the empty line. In the program, a question without options, or with "" among its options, accepts the "" read at end of input, so the remaining such questions are answered with "" and the form can still be exported. With a one-question form without options and input `1`, `f.json`, `2`, the program writes `<name>_submitted.json`; the model ends with `InputEnded` and exports nothing.
- `Collector.PromptFor`: the prompt is a value; the model does not record that it is printed once per question, before that question's first attempt.
- `Text.ToLower`: lower-cases ASCII letters only. Go's `strings.ToLower` also maps non-ASCII letters, which is not modelled.
