/** The form and its questions, as decoded from a definition file. */
module FormModel {
  import opened Wrappers

  /**
   * One question. `options` is `None` when the definition has no options
   * list at all (a nil slice) and `Some([])` when it has an empty one:
   * the program treats these two differently.
   */
  datatype Question = Question(text: string, answer: string, options: Option<seq<string>>, required: bool)

  /** A named, ordered list of questions. */
  datatype Form = Form(name: string, questions: seq<Question>)

  /**
   * A form held by reference, as the program's `*Form`: its questions live
   * in a slice whose elements are written in place while filling.
   */
  class FormRecord {
    var name: string
    var questions: array<Question>

    /** The form the record currently holds. */
    function Value(): Form
      reads this, questions
    {
      Form(name, questions[..])
    }

    constructor (f: Form)
      ensures Value() == f
      ensures fresh(questions)
    {
      name := f.name;
      questions := new Question[|f.questions|](i requires 0 <= i < |f.questions| => f.questions[i]);
    }
  }
}
