/** Collecting answers: validate each input line against a question's options, retry, store in place. */
module Collector {
  import opened Wrappers
  import opened Text
  import opened FormModel
  import opened Exporter

  /**
   * Validation of a lower-cased answer. A question without an options list
   * accepts anything, the empty line included, whatever `required` says; a
   * question with one, even an empty one, accepts exactly its members,
   * compared byte for byte.
   */
  predicate Accepts(options: Option<seq<string>>, answer: string) {
    options.None? || answer in options.value
  }

  /** The `legalAnswer` computation of `fillForm`, a flag set by a scan over the options. */
  method IsLegalAnswer(options: Option<seq<string>>, answer: string) returns (legal: bool)
    ensures legal <==> Accepts(options, answer)
  {
    legal := true;
    if options.Some? {
      legal := false;
      var opts := options.value;
      for k := 0 to |opts|
        invariant legal <==> exists j :: 0 <= j < k && opts[j] == answer
      {
        if opts[k] == answer {
          legal := true;
        }
      }
    }
  }

  /** What a question's prompt shows: its 1-based number, its text, its options list and the required notice. */
  datatype Prompt = Prompt(number: nat, text: string, shownOptions: Option<seq<string>>, requiredNotice: bool)

  /**
   * The prompt for question `i` (0-based). The options line is shown only
   * for a non-empty list, which is a different test from the one validation
   * makes.
   */
  function PromptFor(i: nat, q: Question): Prompt {
    Prompt(i + 1, q.text, if q.options.Some? && |q.options.value| > 0 then q.options else None, q.required)
  }

  /** One question's attempts: the answer accepted with the index after its line, or the input ran out. */
  datatype Attempt = Accepted(answer: string, next: nat) | Exhausted

  /** Ask question `q`, reading lines from index `pos` until one is accepted. */
  function Ask(q: Question, lines: seq<string>, pos: nat): (r: Attempt)
    requires pos <= |lines|
    ensures r.Accepted? ==> pos < r.next <= |lines|
    decreases |lines| - pos
  {
    if pos == |lines| then Exhausted
    else
      var answer := ToLower(lines[pos]);
      if Accepts(q.options, answer) then Accepted(answer, pos + 1)
      else Ask(q, lines, pos + 1)
  }

  /**
   * `Ask` takes the first acceptable line: every line before it is rejected,
   * the answer is that line lower-cased, and the input runs out exactly when
   * no remaining line is acceptable.
   */
  lemma {:induction false} AskTakesFirstAcceptable(q: Question, lines: seq<string>, pos: nat)
    requires pos <= |lines|
    ensures Ask(q, lines, pos).Accepted? ==>
      var a := Ask(q, lines, pos);
      a.answer == ToLower(lines[a.next - 1]) && Accepts(q.options, a.answer) &&
      forall j :: pos <= j < a.next - 1 ==> !Accepts(q.options, ToLower(lines[j]))
    ensures Ask(q, lines, pos).Exhausted? <==>
      forall j :: pos <= j < |lines| ==> !Accepts(q.options, ToLower(lines[j]))
    decreases |lines| - pos
  {
    if pos < |lines| && !Accepts(q.options, ToLower(lines[pos])) {
      AskTakesFirstAcceptable(q, lines, pos + 1);
    }
  }

  /**
   * What the prompt shows agrees with what validation accepts, except for a
   * present but empty options list. Options are shown exactly when the
   * question has a non-empty list. When no options are shown but a list is
   * present (it is empty), every line is rejected and the input runs out. When there is no
   * list at all, the next line is accepted, whatever it is (the empty line
   * too) and whether or not the question is required.
   */
  lemma {:induction false} PromptAgreesWithValidation(i: nat, q: Question, lines: seq<string>, pos: nat)
    requires pos <= |lines|
    ensures PromptFor(i, q).shownOptions.Some? <==> q.options.Some? && |q.options.value| > 0
    ensures PromptFor(i, q).shownOptions.None? && q.options.Some? ==> Ask(q, lines, pos) == Exhausted
    ensures q.options.None? && pos < |lines| ==> Ask(q, lines, pos) == Accepted(ToLower(lines[pos]), pos + 1)
    decreases |lines| - pos
  {
    if pos < |lines| {
      PromptAgreesWithValidation(i, q, lines, pos + 1);
    }
  }

  /** An accepted answer is lower-case, and is one of the options when there are options. */
  lemma AcceptedAnswerShape(q: Question, lines: seq<string>, pos: nat)
    requires pos <= |lines| && Ask(q, lines, pos).Accepted?
    ensures IsLowered(Ask(q, lines, pos).answer)
    ensures q.options.Some? ==> Ask(q, lines, pos).answer in q.options.value
  {
    var a := Ask(q, lines, pos);
    AskTakesFirstAcceptable(q, lines, pos);
    ToLowerIsLowered(lines[a.next - 1]);
  }

  /** An option holding an upper-case letter is never the accepted answer. */
  lemma UpperCaseOptionNeverChosen(q: Question, lines: seq<string>, pos: nat, option: string)
    requires pos <= |lines| && !IsLowered(option)
    ensures Ask(q, lines, pos).Accepted? ==> Ask(q, lines, pos).answer != option
  {
    if Ask(q, lines, pos).Accepted? {
      AcceptedAnswerShape(q, lines, pos);
    }
  }

  /** The answering part of `fillForm`: all questions answered, or the input ran out at question `reached`. */
  datatype AnswerRun = Answered(questions: seq<Question>, next: nat) | RanOut(questions: seq<Question>, reached: nat)

  /** Answer questions `i..` in order, starting at line `pos`, storing each accepted answer in place. */
  function FillFrom(qs: seq<Question>, i: nat, lines: seq<string>, pos: nat): (r: AnswerRun)
    requires i <= |qs| && pos <= |lines|
    ensures |r.questions| == |qs|
    ensures r.Answered? ==> pos + (|qs| - i) <= r.next <= |lines|
    ensures r.RanOut? ==> i <= r.reached < |qs|
    decreases |qs| - i
  {
    if i == |qs| then Answered(qs, pos)
    else
      match Ask(qs[i], lines, pos)
      case Exhausted => RanOut(qs, i)
      case Accepted(answer, next) => FillFrom(qs[i := qs[i].(answer := answer)], i + 1, lines, next)
  }

  /** `b` is `a` with at most its answer changed. */
  predicate SameQuestion(a: Question, b: Question) {
    b == a.(answer := b.answer)
  }

  /**
   * Filling changes answers only; questions before `i` are not touched, and
   * when the input runs out, neither are the question it ran out on and all
   * after it.
   */
  lemma {:induction false} FillFromChangesOnlyAnswers(qs: seq<Question>, i: nat, lines: seq<string>, pos: nat)
    requires i <= |qs| && pos <= |lines|
    ensures var r := FillFrom(qs, i, lines, pos);
      (forall k :: 0 <= k < |qs| ==> SameQuestion(qs[k], r.questions[k])) &&
      (forall k :: 0 <= k < i ==> r.questions[k] == qs[k]) &&
      (r.RanOut? ==> forall k :: r.reached <= k < |qs| ==> r.questions[k] == qs[k])
    decreases |qs| - i
  {
    if i < |qs| {
      match Ask(qs[i], lines, pos)
      case Exhausted =>
      case Accepted(answer, next) =>
        FillFromChangesOnlyAnswers(qs[i := qs[i].(answer := answer)], i + 1, lines, next);
    }
  }

  /**
   * Every question answered from `i` on holds a legal, lower-case answer that
   * is some line of the input from `pos` on, lower-cased.
   */
  lemma {:induction false} FillFromAnswersLegal(qs: seq<Question>, i: nat, lines: seq<string>, pos: nat)
    requires i <= |qs| && pos <= |lines|
    ensures var r := FillFrom(qs, i, lines, pos);
      forall k :: i <= k < (if r.Answered? then |qs| else r.reached) ==>
        Accepts(qs[k].options, r.questions[k].answer) &&
        IsLowered(r.questions[k].answer) &&
        exists j :: pos <= j < |lines| && r.questions[k].answer == ToLower(lines[j])
    decreases |qs| - i
  {
    if i < |qs| {
      match Ask(qs[i], lines, pos)
      case Exhausted =>
      case Accepted(answer, next) =>
        var qs' := qs[i := qs[i].(answer := answer)];
        AskTakesFirstAcceptable(qs[i], lines, pos);
        AcceptedAnswerShape(qs[i], lines, pos);
        FillFromAnswersLegal(qs', i + 1, lines, next);
        FillFromChangesOnlyAnswers(qs', i + 1, lines, next);
        var r := FillFrom(qs, i, lines, pos);
        assert r.questions[i] == qs'[i];
        assert r.questions[i].answer == ToLower(lines[next - 1]);
    }
  }

  /** Every line of `lines[from..to]` is rejected by question `q`. */
  predicate RejectedBetween(q: Question, lines: seq<string>, from: nat, to: nat) {
    forall j :: from <= j < to && j < |lines| ==> !Accepts(q.options, ToLower(lines[j]))
  }

  /**
   * The `m`th question answered from `i` on took line `ps[m]`: it is the
   * first line after the previous question's line (or from `pos`) that the
   * question accepts, and the stored answer is that line lower-cased.
   */
  predicate TakenAt(qs: seq<Question>, i: nat, lines: seq<string>, pos: nat, ps: seq<nat>, out: seq<Question>, m: nat)
    requires m < |ps| && i + m < |qs| && |out| == |qs|
  {
    var from := if m == 0 then pos else ps[m - 1] + 1;
    from <= ps[m] < |lines| &&
    out[i + m].answer == ToLower(lines[ps[m]]) &&
    Accepts(qs[i + m].options, out[i + m].answer) &&
    RejectedBetween(qs[i + m], lines, from, ps[m])
  }

  /** A line taken after the first answer keeps its place when that answer's line is put in front. */
  lemma TakenAtShift(qs: seq<Question>, qs': seq<Question>, i: nat, lines: seq<string>, pos: nat, next: nat,
                     ps': seq<nat>, out: seq<Question>, m: nat)
    requires |qs'| == |qs| == |out| && 1 <= m <= |ps'| && i + m < |qs| && next >= 1
    requires qs'[i + m] == qs[i + m]
    requires TakenAt(qs', i + 1, lines, next, ps', out, m - 1)
    ensures TakenAt(qs, i, lines, pos, [next - 1] + ps', out, m)
  {
    var ps := [next - 1] + ps';
    assert ps[m] == ps'[m - 1];
    assert ps[m - 1] + 1 == if m - 1 == 0 then next else ps'[m - 2] + 1;
  }

  /** The index of the line each answered question took, in question order. */
  ghost function Taken(qs: seq<Question>, i: nat, lines: seq<string>, pos: nat): seq<nat>
    requires i <= |qs| && pos <= |lines|
    decreases |qs| - i
  {
    if i == |qs| then []
    else
      match Ask(qs[i], lines, pos)
      case Exhausted => []
      case Accepted(answer, next) => [next - 1] + Taken(qs[i := qs[i].(answer := answer)], i + 1, lines, next)
  }

  /**
   * Questions are answered strictly in index order, one line per attempt:
   * question `i + m` took line `ps[m]`, the first line after the previous
   * question's that it accepts, every line in between was rejected and
   * retried on the same question, and a completed pass stops right after
   * the last line taken. When the input runs out, the question it ran out on
   * rejected every line after the last one taken.
   */
  ghost predicate TakesLinesInOrder(qs: seq<Question>, i: nat, lines: seq<string>, pos: nat)
    requires i <= |qs| && pos <= |lines|
  {
    var r := FillFrom(qs, i, lines, pos);
    var ps := Taken(qs, i, lines, pos);
    var last := if ps == [] then pos else ps[|ps| - 1] + 1;
    |ps| == (if r.Answered? then |qs| - i else r.reached - i) &&
    (forall m :: 0 <= m < |ps| ==> TakenAt(qs, i, lines, pos, ps, r.questions, m)) &&
    (r.Answered? ==> r.next == last) &&
    (r.RanOut? ==> last <= |lines| && RejectedBetween(qs[r.reached], lines, last, |lines|))
  }

  /** The first question answered from `i` on took the first line from `pos` that it accepts. */
  lemma TakenAtFirst(qs: seq<Question>, i: nat, lines: seq<string>, pos: nat)
    requires i < |qs| && pos <= |lines| && Ask(qs[i], lines, pos).Accepted?
    ensures Taken(qs, i, lines, pos) != []
    ensures TakenAt(qs, i, lines, pos, Taken(qs, i, lines, pos), FillFrom(qs, i, lines, pos).questions, 0)
  {
    var a := Ask(qs[i], lines, pos);
    var qs' := qs[i := qs[i].(answer := a.answer)];
    AskTakesFirstAcceptable(qs[i], lines, pos);
    FillFromChangesOnlyAnswers(qs', i + 1, lines, a.next);
    var r := FillFrom(qs, i, lines, pos);
    assert r == FillFrom(qs', i + 1, lines, a.next);
    assert r.questions[i] == qs'[i];
    assert Taken(qs, i, lines, pos)[0] == a.next - 1;
  }

  /** Taking the first question's line in front of the rest keeps every question's line in order. */
  lemma TakesLinesInOrderStep(qs: seq<Question>, i: nat, lines: seq<string>, pos: nat)
    requires i < |qs| && pos <= |lines| && Ask(qs[i], lines, pos).Accepted?
    requires TakesLinesInOrder(qs[i := qs[i].(answer := Ask(qs[i], lines, pos).answer)], i + 1, lines,
                               Ask(qs[i], lines, pos).next)
    ensures TakesLinesInOrder(qs, i, lines, pos)
  {
    var a := Ask(qs[i], lines, pos);
    var qs' := qs[i := qs[i].(answer := a.answer)];
    var r := FillFrom(qs, i, lines, pos);
    var ps := Taken(qs, i, lines, pos);
    var ps' := Taken(qs', i + 1, lines, a.next);
    assert r == FillFrom(qs', i + 1, lines, a.next);
    assert ps == [a.next - 1] + ps';
    TakenAtFirst(qs, i, lines, pos);
    forall m | 1 <= m < |ps|
      ensures TakenAt(qs, i, lines, pos, ps, r.questions, m)
    {
      TakenAtShift(qs, qs', i, lines, pos, a.next, ps', r.questions, m);
    }
    assert ps' != [] ==> ps'[|ps'| - 1] == ps[|ps| - 1];
  }

  /** Every question answered from `i` on took its line in order, as `TakesLinesInOrder` says. */
  lemma {:induction false} FillFromTakesLinesInOrder(qs: seq<Question>, i: nat, lines: seq<string>, pos: nat)
    requires i <= |qs| && pos <= |lines|
    ensures TakesLinesInOrder(qs, i, lines, pos)
    decreases |qs| - i
  {
    if i < |qs| {
      AskTakesFirstAcceptable(qs[i], lines, pos);
      match Ask(qs[i], lines, pos)
      case Exhausted =>
      case Accepted(answer, next) =>
        FillFromTakesLinesInOrder(qs[i := qs[i].(answer := answer)], i + 1, lines, next);
        TakesLinesInOrderStep(qs, i, lines, pos);
    }
  }

  /** The whole of `fillForm` as a value: the form afterwards, the index after the last line read, and the outcome. */
  datatype FillRun = FillRun(form: Form, next: nat, result: FillResult)

  /** How `fillForm` ends. A write failure is carried inside `Submitted`: it is printed, not returned. */
  datatype FillResult =
    | Submitted(fileName: string, writeError: Option<string>)
    | FormatFailed(error: string)
    | OutOfInput

  /**
   * `fillForm`: answer every question, encode the filled form, then write it
   * to the output file. Only an encoding failure is an error of the call.
   */
  function FillSpec(f: Form, lines: seq<string>, marshal: Marshaller, writeFile: FileWriter): (r: FillRun)
    ensures r.next <= |lines|
    ensures r.form.name == f.name && |r.form.questions| == |f.questions|
    ensures r.result.Submitted? ==> r.result.fileName == SubmittedFileName(f.name)
    ensures r.result.OutOfInput? <==> FillFrom(f.questions, 0, lines, 0).RanOut?
    ensures !r.result.OutOfInput? ==> (r.result.FormatFailed? <==> marshal(r.form).Failure?)
    ensures r.result.FormatFailed? ==> marshal(r.form) == Failure(r.result.error)
    ensures r.result.Submitted? ==> r.result.writeError == WriteFormToFile(r.result.fileName, r.form, marshal, writeFile)
    ensures r.form.questions == FillFrom(f.questions, 0, lines, 0).questions
    ensures !r.result.OutOfInput? ==> r.next == FillFrom(f.questions, 0, lines, 0).next
  {
    match FillFrom(f.questions, 0, lines, 0)
    case RanOut(qs, _) => FillRun(Form(f.name, qs), |lines|, OutOfInput)
    case Answered(qs, next) =>
      var filled := Form(f.name, qs);
      match marshal(filled)
      case Failure(e) => FillRun(filled, next, FormatFailed(e))
      case Success(_) =>
        var fileName := SubmittedFileName(f.name);
        FillRun(filled, next, Submitted(fileName, WriteFormToFile(fileName, filled, marshal, writeFile)))
  }

  /**
   * Filling keeps the form's name and, question by question, its text,
   * options and required flag; every answer it reports as given is legal and
   * lower-case.
   */
  lemma FillSpecKeepsForm(f: Form, lines: seq<string>, marshal: Marshaller, writeFile: FileWriter)
    ensures var r := FillSpec(f, lines, marshal, writeFile);
      r.form.name == f.name && |r.form.questions| == |f.questions| &&
      (forall k :: 0 <= k < |f.questions| ==> SameQuestion(f.questions[k], r.form.questions[k])) &&
      (!r.result.OutOfInput? ==>
        forall k :: 0 <= k < |f.questions| ==>
          Accepts(f.questions[k].options, r.form.questions[k].answer) && IsLowered(r.form.questions[k].answer))
  {
    FillFromChangesOnlyAnswers(f.questions, 0, lines, 0);
    FillFromAnswersLegal(f.questions, 0, lines, 0);
  }

  /** A write failure does not make filling fail: once the encoding succeeds the form counts as submitted. */
  lemma WriteFailureIsNotAnError(f: Form, lines: seq<string>, marshal: Marshaller, writeFile: FileWriter)
    requires FillFrom(f.questions, 0, lines, 0).Answered?
    requires marshal(Form(f.name, FillFrom(f.questions, 0, lines, 0).questions)).Success?
    ensures FillSpec(f, lines, marshal, writeFile).result.Submitted?
  {
  }

  /**
   * `fillForm` on a form held by reference: the questions are answered in
   * place, one input line per attempt, retrying a question until a line is
   * accepted.
   */
  method FillForm(form: FormRecord, lines: seq<string>, marshal: Marshaller, writeFile: FileWriter)
    returns (next: nat, result: FillResult)
    modifies form.questions
    ensures FillRun(form.Value(), next, result) == FillSpec(old(form.Value()), lines, marshal, writeFile)
  {
    ghost var start := form.questions[..];
    var n := form.questions.Length;
    var i, pos := 0, 0;
    while i < n
      invariant 0 <= i <= n && pos <= |lines|
      invariant FillFrom(start, 0, lines, 0) == FillFrom(form.questions[..], i, lines, pos)
    {
      var question := form.questions[i];
      ghost var from, before := pos, form.questions[..];
      assert before[i] == question;
      var accepted, answer := false, "";
      while !accepted
        invariant from <= pos <= |lines|
        invariant form.questions[..] == before
        invariant accepted ==> Ask(question, lines, from) == Accepted(answer, pos)
        invariant !accepted ==> Ask(question, lines, from) == Ask(question, lines, pos)
        decreases |lines| - pos, !accepted
      {
        if pos == |lines| {
          assert FillFrom(before, i, lines, from) == RanOut(before, i);
          return |lines|, OutOfInput;
        }
        answer := ToLower(lines[pos]);
        pos := pos + 1;
        accepted := IsLegalAnswer(question.options, answer);
      }
      form.questions[i] := question.(answer := answer);
      assert form.questions[..] == before[i := question.(answer := answer)];
      i := i + 1;
    }
    var filled := form.Value();
    match marshal(filled)
    case Failure(e) =>
      return pos, FormatFailed(e);
    case Success(_) =>
      var fileName := SubmittedFileName(form.name);
      return pos, Submitted(fileName, WriteFormToFile(fileName, filled, marshal, writeFile));
  }
}
