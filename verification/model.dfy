/** The records the application passes around (types.ts). */
module Model {
  import opened Outcomes

  /** One multiple-choice question. `correctAnswer` is the literal text of the
      right option, not its position; nothing checks that it is one of
      `options`, nor that `id` is unique in a quiz. A question the generator
      returned without an id carries the empty string here (JavaScript's
      `undefined` and `""` are both falsy at the one place ids are read). */
  datatype Question = Question(
    id: string,
    text: string,
    options: seq<string>,
    correctAnswer: string,
    explanation: Option<string>)

  /** Preferences chosen on the configuration screen. `timeMinutes` is a
      JavaScript number holding whatever `parseInt` produced, so it may be
      zero or negative in principle; see ConfigForm. */
  datatype QuizConfig = QuizConfig(
    shuffleQuestions: bool,
    shuffleOptions: bool,
    enableTimer: bool,
    timeMinutes: int)

  /** The four screens of the application; a state is always in exactly one. */
  datatype Status = Upload | Configure | Playing | Finished

  /** Question id to the text of the option the user picked. */
  type Answers = map<string, string>

  /** The application's single state record. `timeRemaining` starts at 0 and,
      once a quiz is submitted, holds the number of seconds the user spent;
      `score` is a placeholder the application never updates. */
  datatype QuizState = QuizState(
    status: Status,
    questions: seq<Question>,
    userAnswers: Answers,
    timeRemaining: int,
    score: int,
    fileName: Option<string>)

  /** A browser `File`, reduced to what the application reads of it: its
      name and its MIME type (`file.type`, the empty string when the browser
      does not know it). The contents are read elsewhere. */
  datatype File = File(name: string, mime: string)

  /** The document kinds the application knows, by MIME type. */
  datatype FileType = Txt | Pdf | Docx

  const TxtMime: string := "text/plain"
  const PdfMime: string := "application/pdf"
  const DocxMime: string := "application/vnd.openxmlformats-officedocument.wordprocessingml.document"

  function MimeOf(ft: FileType): string {
    match ft
    case Txt => TxtMime
    case Pdf => PdfMime
    case Docx => DocxMime
  }

  /** The FileType whose MIME string is exactly `mime`, if any. */
  function FileTypeOf(mime: string): (r: Option<FileType>)
    ensures r.Some? ==> MimeOf(r.value) == mime
  {
    if mime == TxtMime then Some(Txt)
    else if mime == PdfMime then Some(Pdf)
    else if mime == DocxMime then Some(Docx)
    else None
  }

  /** Every MIME string names exactly one FileType: the three constants are
      pairwise distinct, so FileTypeOf undoes MimeOf. */
  lemma FileTypeOfMimeOf(ft: FileType)
    ensures FileTypeOf(MimeOf(ft)) == Some(ft)
  {
  }

  /** A string is a known MIME type exactly when it is one of the constants. */
  lemma FileTypeOfComplete(mime: string)
    ensures FileTypeOf(mime).Some? <==> exists ft :: MimeOf(ft) == mime
  {
    if exists ft :: MimeOf(ft) == mime {
      var ft :| MimeOf(ft) == mime;
      FileTypeOfMimeOf(ft);
    }
  }
}
