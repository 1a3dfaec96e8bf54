/** The application shell (App.tsx): one state record moving through the
    screens upload, settings, quiz and result, plus the busy flag of the
    upload and the configuration the quiz was started with.

    The handlers are total functions, as in the source, where nothing stops a
    handler from running in any state; `Step` adds which screen offers which
    action. The question generator, the clock and the random order are
    parameters. */
module QuizApp {
  import opened Outcomes
  import opened Model
  import opened Decimal
  import opened Strings
  import opened Permutations
  import FileParser
  import Review
  import QuizPlayer
  import Clock

  datatype App = App(quiz: QuizState, loading: bool, config: Option<QuizConfig>)

  /** The state the application starts in and returns to on a new upload. */
  const InitialQuiz: QuizState := QuizState(Upload, [], map[], 0, 0, None)

  const Initial: App := App(InitialQuiz, false, None)

  // ---- ids ----

  /** `q_${Date.now()}_${idx}`. */
  function DefaultId(stamp: int, idx: nat): string {
    "q_" + IntToString(stamp) + "_" + IntToString(idx)
  }

  /** A default id splits at its underscores into the prefix, the time stamp
      and the position. */
  lemma DefaultIdParts(stamp: int, idx: nat)
    ensures Split(DefaultId(stamp, idx), '_') == ["q", IntToString(stamp), IntToString(idx)]
  {
    var a, b := IntToString(stamp), IntToString(idx);
    assert '_' !in a by { if stamp >= 0 { assert AllDigits(a); } else { assert AllDigits(a[1..]); } }
    assert '_' !in b by { assert AllDigits(b); }
    var parts := ["q", a, b];
    assert Join(parts, '_') == DefaultId(stamp, idx) by {
      assert parts[1..] == [a, b] && parts[1..][1..] == [b];
      assert Join([a, b], '_') == a + ['_'] + b;
      assert Join(parts, '_') == "q" + ['_'] + (a + ['_'] + b);
    }
    SplitJoin(parts, '_');
  }

  /** Default ids at different positions differ, whatever the clock says:
      the position is part of the id. */
  lemma DefaultIdsDistinct(s1: int, i1: nat, s2: int, i2: nat)
    requires i1 != i2
    ensures DefaultId(s1, i1) != DefaultId(s2, i2)
  {
    DefaultIdParts(s1, i1);
    DefaultIdParts(s2, i2);
    if DefaultId(s1, i1) == DefaultId(s2, i2) {
      IntToStringInjective(i1, i2);
    }
  }

  /** Questions without an id (the empty string stands for a missing one)
      get `q_<now>_<position>`; the rest keep theirs. `now(k)` is the clock
      reading when position `k` is mapped. */
  function WithIds(qs: seq<Question>, now: nat -> int): (r: seq<Question>)
    ensures |r| == |qs|
  {
    seq(|qs|, k requires 0 <= k < |qs| =>
      qs[k].(id := if qs[k].id != "" then qs[k].id else DefaultId(now(k), k)))
  }

  /** After defaulting every question has an id; a given id is kept, a
      missing one is replaced by a default one, and nothing else about the
      question changes. */
  lemma WithIdsKeepsQuestions(qs: seq<Question>, now: nat -> int, k: nat)
    requires k < |qs|
    ensures var r := WithIds(qs, now)[k];
      && r.id != ""
      && (qs[k].id != "" ==> r.id == qs[k].id)
      && (qs[k].id == "" ==> r.id == DefaultId(now(k), k))
      && r.text == qs[k].text && r.options == qs[k].options
      && r.correctAnswer == qs[k].correctAnswer && r.explanation == qs[k].explanation
  {
    if qs[k].id == "" {
      assert DefaultId(now(k), k)[0] == 'q';
    }
  }

  /** Two questions that both lacked an id end up with different ids. Ids
      given by the generator are not checked, so they may still repeat or
      collide with a default one. */
  lemma DefaultedIdsDistinct(qs: seq<Question>, now: nat -> int, j: nat, k: nat)
    requires j < k < |qs| && qs[j].id == "" && qs[k].id == ""
    ensures WithIds(qs, now)[j].id != WithIds(qs, now)[k].id
  {
    DefaultIdsDistinct(now(j), j, now(k), k);
  }

  // ---- handlers ----

  /** `setLoading(true)` at the start of `handleFileProcess`. */
  function BeginUpload(app: App): (r: App)
    ensures r.loading && r.quiz == app.quiz && r.config == app.config
  {
    app.(loading := true)
  }

  /** The rest of `handleFileProcess`: read the file, ask the generator,
      and on success go to the settings screen with the questions and the
      file name. Any failure (an alert) leaves the state as it was. The busy
      flag is cleared either way. */
  function FinishUpload(app: App, file: File, input: FileParser.Reads,
                        generate: FileParser.Payload -> Result<seq<Question>>,
                        now: nat -> int): (r: App)
    ensures !r.loading && r.config == app.config
  {
    match FileParser.ReadFileContent(file.mime, input)
    case Err(_) => app.(loading := false)
    case Ok(payload) =>
      match generate(payload)
      case Err(_) => app.(loading := false)
      case Ok(qs) =>
        App(app.quiz.(status := Configure, questions := WithIds(qs, now), fileName := Some(file.name)),
            false, app.config)
  }

  /** Each question's options rearranged by its own exchanges. */
  function ShuffleOptions(qs: seq<Question>, orders: nat -> seq<Swap>): (r: seq<Question>)
    ensures |r| == |qs|
  {
    seq(|qs|, k requires 0 <= k < |qs| => qs[k].(options := Permute(qs[k].options, orders(k))))
  }

  /** The question order `startQuiz` plays: shuffled or as generated. */
  function Ordered(qs: seq<Question>, cfg: QuizConfig, order: seq<Swap>): seq<Question> {
    if cfg.shuffleQuestions then Permute(qs, order) else qs
  }

  /** `startQuiz`: remember the configuration, shuffle as asked, clear the
      answers and start playing. */
  function StartQuiz(app: App, cfg: QuizConfig, order: seq<Swap>, optionOrders: nat -> seq<Swap>): App {
    var ordered := Ordered(app.quiz.questions, cfg, order);
    var played := if cfg.shuffleOptions then ShuffleOptions(ordered, optionOrders) else ordered;
    App(app.quiz.(status := Playing, questions := played, userAnswers := map[]), app.loading, Some(cfg))
  }

  /** `handleQuizSubmit`: show the result with the given answers; the time
      used is kept in the `timeRemaining` field. */
  function SubmitQuiz(app: App, answers: Answers, timeUsed: int): App {
    app.(quiz := app.quiz.(status := Finished, userAnswers := answers, timeRemaining := timeUsed))
  }

  /** `resetQuiz`: back to the settings with no answers. */
  function Retry(app: App): App {
    app.(quiz := app.quiz.(status := Configure, userAnswers := map[]))
  }

  /** `newUpload`: the initial quiz state; the busy flag and the remembered
      configuration are not touched. */
  function NewUpload(app: App): App {
    app.(quiz := InitialQuiz)
  }

  /** The quiz screen's limit in seconds: minutes times sixty when the timer
      is on, absent otherwise. */
  function TimeLimit(config: Option<QuizConfig>): (r: Option<int>)
    ensures r.Some? <==> config.Some? && config.value.enableTimer
    ensures r.Some? ==> r.value == config.value.timeMinutes * 60
  {
    if config.Some? && config.value.enableTimer then Some(config.value.timeMinutes * 60) else None
  }

  // ---- screens ----

  datatype Event =
    | ChooseFile
    | FileProcessed(file: File, input: FileParser.Reads,
                    generate: FileParser.Payload -> Result<seq<Question>>, now: nat -> int)
    | Start(cfg: QuizConfig, order: seq<Swap>, optionOrders: nat -> seq<Swap>)
    | Submit(answers: Answers, timeUsed: int)
    | RetryQuiz
    | NewFile

  /** An event where the current screen offers it, `None` elsewhere. The
      upload box is on the upload screen (dropping works even while busy);
      the processing finishes only while busy; starting is on the settings
      screen, submitting on the quiz screen, retrying on the result screen;
      the logo starts a new upload from anywhere. A quiz with no questions
      cannot be drawn (the quiz screen reads the text of a question that
      does not exist and the page is left blank), so nothing is offered
      there. */
  function Step(app: App, e: Event): Option<App> {
    if app.quiz.status == Playing && app.quiz.questions == [] then None
    else match e
    case ChooseFile => if app.quiz.status == Upload then Some(BeginUpload(app)) else None
    case FileProcessed(file, input, generate, now) =>
      if app.loading then Some(FinishUpload(app, file, input, generate, now)) else None
    case Start(cfg, order, optionOrders) =>
      if app.quiz.status == Configure then Some(StartQuiz(app, cfg, order, optionOrders)) else None
    case Submit(answers, timeUsed) =>
      if app.quiz.status == Playing then Some(SubmitQuiz(app, answers, timeUsed)) else None
    case RetryQuiz => if app.quiz.status == Finished then Some(Retry(app)) else None
    case NewFile => Some(NewUpload(app))
  }

  /** What holds on every screen. */
  predicate Valid(app: App) {
    var q := app.quiz;
    && q.score == 0
    && (app.loading ==> q.status == Upload)
    && (q.status == Upload ==> q.questions == [] && q.userAnswers == map[] && q.fileName.None? && q.timeRemaining == 0)
    && (q.status == Configure ==> q.userAnswers == map[] && q.fileName.Some?)
    && (q.status == Playing ==> q.userAnswers == map[] && q.fileName.Some? && app.config.Some?)
    && (q.status == Finished ==> q.fileName.Some? && app.config.Some? && q.questions != [])
  }

  lemma InitialValid()
    ensures Valid(Initial)
  {
  }

  /** Every offered event keeps the state valid. */
  lemma StepKeepsValid(app: App, e: Event)
    requires Valid(app)
    ensures Step(app, e).Some? ==> Valid(Step(app, e).value)
  {
  }

  /** The only ways between screens: upload to settings, settings to quiz,
      quiz to result, result back to settings, and anywhere to upload. */
  lemma ScreenTransitions(app: App, e: Event)
    requires Valid(app) && Step(app, e).Some?
    ensures var s, t := app.quiz.status, Step(app, e).value.quiz.status;
      t == Upload
      || (s == Upload && t == Configure) || (s == Configure && t == Playing)
      || (s == Playing && t == Finished) || (s == Finished && t == Configure)
  {
  }

  /** A new upload restores the initial quiz state from anywhere. */
  lemma NewUploadResets(app: App)
    ensures NewUpload(app).quiz == Initial.quiz
    ensures NewUpload(app).loading == app.loading && NewUpload(app).config == app.config
  {
  }

  /** A successful upload moves to the settings screen with the generated
      questions, ids filled in, and the file name; answers and time are
      untouched. */
  lemma UploadSuccess(app: App, file: File, input: FileParser.Reads,
                      generate: FileParser.Payload -> Result<seq<Question>>, now: nat -> int)
    requires FileParser.ReadFileContent(file.mime, input).Ok?
    requires generate(FileParser.ReadFileContent(file.mime, input).value).Ok?
    ensures var r := FinishUpload(app, file, input, generate, now);
      var qs := generate(FileParser.ReadFileContent(file.mime, input).value).value;
      && r.quiz.status == Configure
      && r.quiz.questions == WithIds(qs, now)
      && r.quiz.fileName == Some(file.name)
      && r.quiz.userAnswers == app.quiz.userAnswers
      && r.quiz.timeRemaining == app.quiz.timeRemaining
  {
  }

  /** A failed read or generation changes nothing but the busy flag. */
  lemma UploadFailure(app: App, file: File, input: FileParser.Reads,
                      generate: FileParser.Payload -> Result<seq<Question>>, now: nat -> int)
    requires FileParser.ReadFileContent(file.mime, input).Err?
      || generate(FileParser.ReadFileContent(file.mime, input).value).Err?
    ensures FinishUpload(app, file, input, generate, now) == app.(loading := false)
  {
  }

  /** Two questions that differ at most in the order of their options. */
  predicate SameUpToOptionOrder(a: Question, b: Question) {
    && a.id == b.id && a.text == b.text && a.correctAnswer == b.correctAnswer
    && a.explanation == b.explanation && multiset(a.options) == multiset(b.options)
  }

  /** Starting plays a rearrangement of the questions, each with a
      rearrangement of its options, and no answers. Without question
      shuffling the order is kept; without option shuffling the options
      are. */
  lemma StartQuizShuffles(app: App, cfg: QuizConfig, order: seq<Swap>, optionOrders: nat -> seq<Swap>)
    ensures var r := StartQuiz(app, cfg, order, optionOrders);
      var ordered := Ordered(app.quiz.questions, cfg, order);
      r.quiz.status == Playing && r.quiz.userAnswers == map[] && r.config == Some(cfg)
      && r.quiz.fileName == app.quiz.fileName
    ensures var ordered := Ordered(app.quiz.questions, cfg, order);
      multiset(ordered) == multiset(app.quiz.questions)
      && (!cfg.shuffleQuestions ==> ordered == app.quiz.questions)
    ensures var r := StartQuiz(app, cfg, order, optionOrders);
      var ordered := Ordered(app.quiz.questions, cfg, order);
      |r.quiz.questions| == |ordered|
    ensures var r := StartQuiz(app, cfg, order, optionOrders);
      var ordered := Ordered(app.quiz.questions, cfg, order);
      (forall k :: 0 <= k < |ordered| ==> SameUpToOptionOrder(r.quiz.questions[k], ordered[k]))
    ensures var r := StartQuiz(app, cfg, order, optionOrders);
      var ordered := Ordered(app.quiz.questions, cfg, order);
      (!cfg.shuffleOptions ==> r.quiz.questions == ordered)
  {
    var r := StartQuiz(app, cfg, order, optionOrders);
    var ordered := Ordered(app.quiz.questions, cfg, order);
    if cfg.shuffleOptions {
      forall k | 0 <= k < |ordered| ensures SameUpToOptionOrder(r.quiz.questions[k], ordered[k]) {
        assert r.quiz.questions[k] == ordered[k].(options := Permute(ordered[k].options, optionOrders(k)));
      }
    }
  }

  /** Shuffling never changes whether a question's correct answer is among
      its options. */
  lemma StartQuizKeepsCorrectOption(app: App, cfg: QuizConfig, order: seq<Swap>, optionOrders: nat -> seq<Swap>, k: nat)
    requires k < |app.quiz.questions|
    ensures var r := StartQuiz(app, cfg, order, optionOrders);
      var ordered := Ordered(app.quiz.questions, cfg, order);
      ((r.quiz.questions[k].correctAnswer in r.quiz.questions[k].options)
        <==> (ordered[k].correctAnswer in ordered[k].options))
  {
    var r := StartQuiz(app, cfg, order, optionOrders);
    var ordered := Ordered(app.quiz.questions, cfg, order);
    StartQuizShuffles(app, cfg, order, optionOrders);
    assert SameUpToOptionOrder(r.quiz.questions[k], ordered[k]);
    var a, b := r.quiz.questions[k], ordered[k];
    assert a.correctAnswer in a.options <==> a.correctAnswer in multiset(a.options);
    assert b.correctAnswer in b.options <==> b.correctAnswer in multiset(b.options);
  }

  /** Shuffling does not change the score any set of answers earns. */
  lemma StartQuizKeepsCorrectCount(app: App, cfg: QuizConfig, order: seq<Swap>, optionOrders: nat -> seq<Swap>, answers: Answers)
    ensures Review.CorrectCount(StartQuiz(app, cfg, order, optionOrders).quiz.questions, answers)
      == Review.CorrectCount(app.quiz.questions, answers)
  {
    var qs := app.quiz.questions;
    var ordered := Ordered(qs, cfg, order);
    var played := StartQuiz(app, cfg, order, optionOrders).quiz.questions;
    var p := Review.CorrectFor(answers);
    CountPermutation(ordered, qs, p);
    StartQuizShuffles(app, cfg, order, optionOrders);
    forall k | 0 <= k < |played| ensures p(played[k]) == p(ordered[k]) {
      assert SameUpToOptionOrder(played[k], ordered[k]);
      assert p(played[k]) == Review.IsCorrect(answers, played[k]);
      assert p(ordered[k]) == Review.IsCorrect(answers, ordered[k]);
    }
    CountSameVerdicts(played, p, ordered, p);
  }

  /** Any order of the questions can come out of a question shuffle, with
      the option shuffle on or off. */
  lemma StartQuizCanPlayAnyOrder(app: App, cfg: QuizConfig, target: seq<Question>) returns (order: seq<Swap>)
    requires cfg.shuffleQuestions
    requires multiset(target) == multiset(app.quiz.questions)
    ensures StartQuiz(app, cfg, order, _ => []).quiz.questions == target
  {
    order := PermutationReachable(app.quiz.questions, target);
    var played := StartQuiz(app, cfg, order, _ => []).quiz.questions;
    forall k | 0 <= k < |played| ensures played[k] == target[k] {
      assert Permute(target[k].options, []) == target[k].options;
    }
  }

  /** Submitting shows the result for exactly the given answers and time,
      with the questions as played. */
  lemma SubmitStores(app: App, answers: Answers, timeUsed: int)
    ensures var r := SubmitQuiz(app, answers, timeUsed);
      r.quiz.status == Finished && r.quiz.userAnswers == answers
      && r.quiz.timeRemaining == timeUsed && r.quiz.questions == app.quiz.questions
      && r.quiz.fileName == app.quiz.fileName && r.config == app.config
  {
  }

  /** Retrying returns to the settings with no answers and the questions in
      the order and option order last played. */
  lemma RetryKeepsQuestions(app: App)
    ensures var r := Retry(app);
      r.quiz.status == Configure && r.quiz.userAnswers == map[]
      && r.quiz.questions == app.quiz.questions && r.quiz.fileName == app.quiz.fileName
  {
  }

  /** The quiz screen counts down exactly when the timer is on with a
      non-zero number of minutes, starting from minutes times sixty. */
  lemma CountdownFromConfig(questions: seq<Question>, config: Option<QuizConfig>)
    ensures var p := QuizPlayer.Start(questions, TimeLimit(config));
      (p.timeLeft.Some? <==> config.Some? && config.value.enableTimer && config.value.timeMinutes != 0)
      && (p.timeLeft.Some? ==> p.timeLeft.value == config.value.timeMinutes * 60)
  {
  }

  /** Starting an upload and having it fail returns to exactly the state
      before: the busy flag is back off and nothing else was touched. */
  lemma FailedUploadRestores(app: App, file: File, input: FileParser.Reads,
                             generate: FileParser.Payload -> Result<seq<Question>>, now: nat -> int)
    requires !app.loading
    requires FileParser.ReadFileContent(file.mime, input).Err?
      || generate(FileParser.ReadFileContent(file.mime, input).value).Err?
    ensures FinishUpload(BeginUpload(app), file, input, generate, now) == app
  {
  }

  /** A quiz without questions is a dead end: no event is offered, the
      logo included. */
  lemma EmptyQuizIsStuck(app: App, e: Event)
    requires app.quiz.status == Playing && app.quiz.questions == []
    ensures Step(app, e).None?
  {
  }

  /** The result screen always has a mark: it is only reached from a quiz
      with questions, so the mark exists and lies in 0..10. */
  lemma ResultHasMark(app: App)
    requires Valid(app) && app.quiz.status == Finished
    ensures var mark := Review.Score(app.quiz.questions, app.quiz.userAnswers);
      mark.Some? && 0 <= mark.value <= 10
  {
    Review.MarksInRange(app.quiz.questions, app.quiz.userAnswers);
  }

  /** Negative minutes give a negative limit, a whole number of minutes: the
      countdown first shows the minutes with their sign and `:00`, and the
      first tick submits with no answers and no time used. */
  lemma NegativeMinutesEndAtFirstTick(questions: seq<Question>, cfg: QuizConfig)
    requires cfg.enableTimer && cfg.timeMinutes < 0
    ensures var p := QuizPlayer.Start(questions, TimeLimit(Some(cfg)));
      && p.timeLeft == Some(cfg.timeMinutes * 60)
      && Clock.FormatClock(p.timeLeft.value) == IntToString(cfg.timeMinutes) + ":00"
      && QuizPlayer.TickOf(p) == QuizPlayer.Submitted(map[], 0)
  {
    Clock.FormatWholeMinutes(cfg.timeMinutes);
  }
}
