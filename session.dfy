/** The top-level menu of `main`, written as an explicit state machine over the input lines. */
module Session {
  import opened Wrappers
  import opened Text
  import opened FormModel
  import opened Loader
  import opened Exporter
  import opened Collector

  const ImportChoice: string := "1"
  const FillChoice: string := "2"

  /**
   * Everything outside the program: the file system's reads, the two
   * decoders, the JSON encoder and the file system's writes. Reads are a fixed
   * function of the path: the only write happens just before the program
   * ends, so no read can observe it.
   */
  datatype Env = Env(
    readFile: string -> Result<Bytes, string>,
    decodeJson: Decoder,
    decodeYaml: Decoder,
    marshal: Marshaller,
    writeFile: FileWriter)

  /** How the program ended. */
  datatype Exit =
    | Exported(fileName: string, writeError: Option<string>)   // a form was filled and exported
    | LeftAtMenu                                               // "2" at the top menu with a form already imported
    | InputEnded                                               // no input line was left to read

  /** Where control is: the labels `START` and `IMPORT_FILE_LOOP`, the menu after an import, or the end. */
  datatype Mode = Menu | Importing | InnerMenu | Done(exit: Exit)

  /** The control state with the `selectedForm` slot. */
  datatype State = State(mode: Mode, slot: Option<Form>)

  const Initial: State := State(Menu, None)

  /** After a successful import the slot holds the imported form. */
  predicate Valid(s: State) {
    s.mode == InnerMenu ==> s.slot.Some?
  }

  datatype Stepped = Stepped(state: State, rest: seq<string>)

  /** The result of importing the file at `path`. */
  function Import(env: Env, path: string): Result<Form, ImportError> {
    ImportForm(path, env.readFile(path), env.decodeJson, env.decodeYaml)
  }

  /**
   * One transition of `main`: read a menu choice or a path (or, when filling,
   * all the answers), and move on. The slot is never emptied, changes only on
   * a successful import or a fill, and a submission is always named after the
   * form in the slot.
   */
  function Step(env: Env, s: State, lines: seq<string>): (r: Stepped)
    requires Valid(s) && !s.mode.Done?
    ensures Valid(r.state)
    ensures |r.rest| < |lines| || (lines == [] && r.state.mode == Done(InputEnded))
    ensures s.slot.Some? ==> r.state.slot.Some?
    ensures r.state.slot != s.slot ==>
      (s.mode == Importing && r.state.mode == InnerMenu) ||
      (s.mode == InnerMenu && r.state.slot.Some? && r.state.slot.value.name == s.slot.value.name)
    ensures r.state.mode.Done? && r.state.mode.exit.Exported? ==>
      r.state.slot.Some? && r.state.mode.exit.fileName == SubmittedFileName(r.state.slot.value.name)
  {
    if lines == [] then Stepped(State(Done(InputEnded), s.slot), [])
    else
      var line, rest := lines[0], lines[1..];
      match s.mode
      case Menu =>
        if line == ImportChoice then Stepped(State(Importing, s.slot), rest)
        else if line == FillChoice && s.slot.Some? then Stepped(State(Done(LeftAtMenu), s.slot), rest)
        else Stepped(s, rest)
      case Importing =>
        (match Import(env, line)
         case Failure(_) => Stepped(State(Menu, s.slot), rest)
         case Success(form) => Stepped(State(InnerMenu, Some(form)), rest))
      case InnerMenu =>
        if line == ImportChoice then Stepped(State(Importing, s.slot), rest)
        else if line == FillChoice then
          var run := FillSpec(s.slot.value, rest, env.marshal, env.writeFile);
          var slot := Some(run.form);
          match run.result
          case Submitted(fileName, writeError) =>
            Stepped(State(Done(Exported(fileName, writeError)), slot), rest[run.next..])
          case FormatFailed(_) => Stepped(State(Menu, slot), rest[run.next..])
          case OutOfInput => Stepped(State(Done(InputEnded), slot), [])
        else Stepped(State(Menu, s.slot), rest)
  }

  /** Run `main` from `s` until it ends. */
  function Run(env: Env, s: State, lines: seq<string>): (r: State)
    requires Valid(s)
    ensures r.mode.Done?
    ensures s.slot.Some? ==> r.slot.Some?
    decreases |lines|, if s.mode.Done? then 0 else 1
  {
    if s.mode.Done? then s
    else
      var st := Step(env, s, lines);
      Run(env, st.state, st.rest)
  }

  /** A run that ends in a submission wrote the file named after the form it holds. */
  lemma {:induction false} SubmissionNamedAfterForm(env: Env, s: State, lines: seq<string>)
    requires Valid(s)
    requires s.mode.Done? && s.mode.exit.Exported? ==>
      s.slot.Some? && s.mode.exit.fileName == SubmittedFileName(s.slot.value.name)
    ensures var r := Run(env, s, lines);
      r.mode.exit.Exported? ==> r.slot.Some? && r.mode.exit.fileName == SubmittedFileName(r.slot.value.name)
    decreases |lines|, if s.mode.Done? then 0 else 1
  {
    if !s.mode.Done? {
      var st := Step(env, s, lines);
      SubmissionNamedAfterForm(env, st.state, st.rest);
    }
  }

  /** Every path fails to import. */
  ghost predicate NothingImports(env: Env) {
    forall path :: Import(env, path).Failure?
  }

  /** When no import can succeed the slot stays empty and nothing is ever submitted. */
  lemma {:induction false} NoImportNoSubmission(env: Env, s: State, lines: seq<string>)
    requires NothingImports(env)
    requires s.slot.None? && !s.mode.InnerMenu? && !(s.mode.Done? && s.mode.exit.Exported?)
    ensures Run(env, s, lines).slot.None?
    ensures !Run(env, s, lines).mode.exit.Exported?
    decreases |lines|, if s.mode.Done? then 0 else 1
  {
    if !s.mode.Done? {
      var st := Step(env, s, lines);
      if s.mode == Importing && lines != [] {
        assert Import(env, lines[0]).Failure?;
      }
      NoImportNoSubmission(env, st.state, st.rest);
    }
  }

  /** A failed import goes back to the menu and keeps the previously imported form. */
  lemma FailedImportKeepsSlot(env: Env, slot: Option<Form>, path: string, rest: seq<string>)
    requires Import(env, path).Failure?
    ensures Step(env, State(Importing, slot), [path] + rest) == Stepped(State(Menu, slot), rest)
  {
  }

  /** A successful import selects the new form and shows the second menu. */
  lemma SuccessfulImportSelects(env: Env, slot: Option<Form>, path: string, rest: seq<string>)
    requires Import(env, path).Success?
    ensures Step(env, State(Importing, slot), [path] + rest) ==
      Stepped(State(InnerMenu, Some(Import(env, path).value)), rest)
  {
  }

  /** An unrecognised choice at either menu goes back to the top menu, keeping the slot. */
  lemma InvalidChoiceBackToMenu(env: Env, s: State, line: string, rest: seq<string>)
    requires (s.mode == Menu || s.mode == InnerMenu) && Valid(s)
    requires line != ImportChoice && line != FillChoice
    ensures Step(env, s, [line] + rest) == Stepped(State(Menu, s.slot), rest)
  {
  }

  /** "2" at the top menu with no form prints a notice and shows the menu again. */
  lemma FillWithoutFormBackToMenu(env: Env, rest: seq<string>)
    ensures Step(env, State(Menu, None), [FillChoice] + rest) == Stepped(State(Menu, None), rest)
  {
  }

  /**
   * "2" at the top menu with a form already imported ends the program at
   * once: nothing is filled, and the rest of the input is never read.
   */
  lemma {:induction false} FillAtTopMenuEndsProgram(env: Env, f: Form, rest: seq<string>)
    ensures Run(env, State(Menu, Some(f)), [FillChoice] + rest) == State(Done(LeftAtMenu), Some(f))
  {
  }

  /** "1" at the top menu asks for a path, keeping whatever form is selected. */
  lemma ImportFromTopMenu(env: Env, slot: Option<Form>, rest: seq<string>)
    ensures Step(env, State(Menu, slot), [ImportChoice] + rest) == Stepped(State(Importing, slot), rest)
  {
  }

  /** "1" at the second menu asks for another path. */
  lemma ImportAgainFromInnerMenu(env: Env, f: Form, rest: seq<string>)
    ensures Step(env, State(InnerMenu, Some(f)), [ImportChoice] + rest) == Stepped(State(Importing, Some(f)), rest)
  {
  }

  /**
   * "2" at the second menu fills the selected form in place: a successful
   * fill ends the program with the submission, an encoding failure returns
   * to the top menu with the filled form still selected.
   */
  lemma FillFromInnerMenu(env: Env, f: Form, rest: seq<string>)
    ensures var run := FillSpec(f, rest, env.marshal, env.writeFile);
      var st := Step(env, State(InnerMenu, Some(f)), [FillChoice] + rest);
      st.state.slot == Some(run.form) &&
      (run.result.Submitted? ==> st.state.mode == Done(Exported(run.result.fileName, run.result.writeError))) &&
      (run.result.FormatFailed? ==> st.state.mode == Menu && st.rest == rest[run.next..]) &&
      (run.result.OutOfInput? ==> st.state.mode == Done(InputEnded))
  {
  }

  /** A sample one-question form: a colour to pick from "red" and "blue". */
  function Survey(answer: string): Form {
    Form("Survey", [Question("Pick a color", answer, Some(["red", "blue"]), false)])
  }

  /** "RED" lower-cases to "red". */
  lemma LowerRed()
    ensures ToLower("RED") == "red"
  {
    var r := ToLower("RED");
    assert r[0] == 'r' && r[1] == 'e' && r[2] == 'd';
  }

  /** "green" and "blue" are already lower-case. */
  lemma LowerGreenBlue()
    ensures ToLower("green") == "green" && ToLower("blue") == "blue"
  {
    LoweredIsFixedPoint("green");
    LoweredIsFixedPoint("blue");
  }

  /** Once the survey's question is answered with `stored`, the pass is complete at line `next`. */
  lemma SurveyLastStep(lines: seq<string>, next: nat, stored: string)
    requires next <= |lines|
    ensures FillFrom(Survey("").questions[0 := Survey("").questions[0].(answer := stored)], 1, lines, next) ==
      Answered(Survey(stored).questions, next)
  {
    assert Survey("").questions[0 := Survey("").questions[0].(answer := stored)] == Survey(stored).questions;
  }

  /** Answering the survey with "RED", or with "green" and then "blue", stores "red" or "blue". */
  lemma SurveyAnswered(answers: seq<string>, stored: string)
    requires (answers == ["RED"] && stored == "red") || (answers == ["green", "blue"] && stored == "blue")
    ensures FillFrom(Survey("").questions, 0, answers, 0) == Answered(Survey(stored).questions, |answers|)
  {
    var qs := Survey("").questions;
    var q := qs[0];
    if answers == ["RED"] {
      LowerRed();
      assert Ask(q, answers, 0) == Accepted("red", 1);
    } else {
      LowerGreenBlue();
      assert Ask(q, answers, 1) == Accepted("blue", 2);
      assert Ask(q, answers, 0) == Accepted("blue", 2);
    }
    assert FillFrom(qs, 0, answers, 0) == FillFrom(qs[0 := q.(answer := stored)], 1, answers, |answers|);
    SurveyLastStep(answers, |answers|, stored);
  }

  /** Importing `survey.json` from the top menu reaches the second menu with the survey selected. */
  lemma SurveyImported(env: Env, rest: seq<string>)
    requires env.readFile("survey.json").Success?
    requires env.decodeJson(env.readFile("survey.json").value) == Success(Survey(""))
    ensures Run(env, Initial, [ImportChoice, "survey.json"] + rest) == Run(env, State(InnerMenu, Some(Survey(""))), rest)
  {
  }

  /** Filling the survey with those answers submits it as `Survey_submitted.json`. */
  lemma SurveyFilled(env: Env, answers: seq<string>, stored: string)
    requires env.marshal(Survey(stored)).Success?
    requires (answers == ["RED"] && stored == "red") || (answers == ["green", "blue"] && stored == "blue")
    ensures FillSpec(Survey(""), answers, env.marshal, env.writeFile) ==
      FillRun(Survey(stored), |answers|,
              Collector.Submitted("Survey_submitted.json",
                                  WriteFormToFile("Survey_submitted.json", Survey(stored), env.marshal, env.writeFile)))
  {
    SurveyAnswered(answers, stored);
    assert "Survey" + SubmittedSuffix == "Survey_submitted.json";
  }

  /**
   * Import `survey.json`, choose "2", and answer: the answer is stored
   * lower-cased, a rejected answer is retried, and the output file is
   * `Survey_submitted.json`.
   */
  lemma SurveyScenario(env: Env, answers: seq<string>, stored: string)
    requires env.readFile("survey.json").Success?
    requires env.decodeJson(env.readFile("survey.json").value) == Success(Survey(""))
    requires env.marshal(Survey(stored)).Success?
    requires (answers == ["RED"] && stored == "red") || (answers == ["green", "blue"] && stored == "blue")
    ensures Run(env, Initial, [ImportChoice, "survey.json", FillChoice] + answers) ==
      State(Done(Exported("Survey_submitted.json",
                            WriteFormToFile("Survey_submitted.json", Survey(stored), env.marshal, env.writeFile))),
              Some(Survey(stored)))
  {
    assert [ImportChoice, "survey.json", FillChoice] + answers == [ImportChoice, "survey.json"] + ([FillChoice] + answers);
    SurveyImported(env, [FillChoice] + answers);
    SurveyFilled(env, answers, stored);
    FillFromInnerMenu(env, Survey(""), answers);
  }

  /** The running form of `main`: `selectedForm` is a reference, and filling writes into it. */
  function Snapshot(mode: Mode, selected: FormRecord?): State
    reads selected, if selected != null then {selected.questions} else {}
  {
    State(mode, if selected == null then None else Some(selected.Value()))
  }

  /** `main`: loop over the menus, importing into `selectedForm` and filling it in place. */
  method RunSession(env: Env, lines: seq<string>) returns (final: State)
    ensures final == Run(env, Initial, lines)
  {
    var mode: Mode := Menu;
    var selected: FormRecord? := null;
    var rest := lines;
    while !mode.Done?
      invariant selected != null ==> fresh(selected) && fresh(selected.questions)
      invariant Valid(Snapshot(mode, selected))
      invariant Run(env, Snapshot(mode, selected), rest) == Run(env, Initial, lines)
      decreases |rest|, if mode.Done? then 0 else 1
    {
      ghost var before := Snapshot(mode, selected);
      ghost var st := Step(env, before, rest);
      if rest == [] {
        mode := Done(InputEnded);
      } else {
        var line := rest[0];
        rest := rest[1..];
        match mode
        case Menu =>
          if line == ImportChoice {
            mode := Importing;
          } else if line == FillChoice && selected != null {
            mode := Done(LeftAtMenu);
          }
        case Importing =>
          match Import(env, line) {
            case Failure(_) =>
              mode := Menu;
            case Success(form) =>
              selected := new FormRecord(form);
              mode := InnerMenu;
          }
        case InnerMenu =>
          if line == ImportChoice {
            mode := Importing;
          } else if line == FillChoice {
            var next, result := FillForm(selected, rest, env.marshal, env.writeFile);
            match result
            case Submitted(fileName, writeError) =>
              mode := Done(Exported(fileName, writeError));
              rest := rest[next..];
            case FormatFailed(_) =>
              mode := Menu;
              rest := rest[next..];
            case OutOfInput =>
              mode := Done(InputEnded);
              rest := [];
          } else {
            mode := Menu;
          }
      }
      assert Snapshot(mode, selected) == st.state && rest == st.rest;
    }
    final := Snapshot(mode, selected);
  }
}
