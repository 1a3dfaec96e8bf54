/** One session from start to finish on three two-option questions: upload,
    settings without shuffling, two answers and a blank, submit, result,
    retry. */
module Walkthrough {
  import opened Outcomes
  import opened Model
  import opened Permutations
  import FileParser
  import QuizApp
  import QuizPlayer
  import Review

  const Q1: Question := Question("a", "1 + 1?", ["1", "2"], "2", None)
  const Q2: Question := Question("b", "2 + 2?", ["3", "4"], "4", None)
  const Q3: Question := Question("", "3 + 3?", ["5", "6"], "6", Some("6 is 3 twice"))

  const Plain: QuizConfig := QuizConfig(false, false, false, 15)

  const Upload: File := File("quiz.txt", TxtMime)
  const Input: FileParser.Reads := FileParser.Reads(Ok(""), Err("unused"), Err("unused"))

  /** The questions as the settings screen holds them: the third one has
      the default id for position 2 at clock reading 7. */
  const Loaded: seq<Question> := [Q1, Q2, Q3.(id := "q_7_2")]

  const Answered: Answers := map["a" := "2", "b" := "3"]

  /** The upload goes through the busy state to the settings screen with
      the file name and the missing id filled in. */
  lemma UploadStage()
    ensures var busy := QuizApp.Step(QuizApp.Initial, QuizApp.ChooseFile);
      busy == Some(QuizApp.Initial.(loading := true))
      && QuizApp.Step(busy.value, QuizApp.FileProcessed(Upload, Input, _ => Ok([Q1, Q2, Q3]), _ => 7))
        == Some(QuizApp.App(QuizState(Configure, Loaded, map[], 0, 0, Some("quiz.txt")), false, None))
  {
    assert FileParser.ReadFileContent(Upload.mime, Input).Ok?;
    var qs := QuizApp.WithIds([Q1, Q2, Q3], _ => 7);
    QuizApp.WithIdsKeepsQuestions([Q1, Q2, Q3], _ => 7, 0);
    QuizApp.WithIdsKeepsQuestions([Q1, Q2, Q3], _ => 7, 1);
    QuizApp.WithIdsKeepsQuestions([Q1, Q2, Q3], _ => 7, 2);
    assert QuizApp.DefaultId(7, 2) == "q_7_2";
    assert qs == Loaded;
  }

  /** Starting without shuffles plays the questions as loaded, with no
      countdown. */
  lemma StartStage()
    ensures var ready := QuizApp.App(QuizState(Configure, Loaded, map[], 0, 0, Some("quiz.txt")), false, None);
      var playing := QuizApp.Step(ready, QuizApp.Start(Plain, [], _ => []));
      playing == Some(QuizApp.App(QuizState(Playing, Loaded, map[], 0, 0, Some("quiz.txt")), false, Some(Plain)))
      && QuizApp.TimeLimit(playing.value.config).None?
  {
  }

  /** Choosing "2", moving on, choosing "3", moving on and finishing hands
      over those two answers and no time used. */
  lemma PlayStage()
    ensures var p0 := QuizPlayer.Start(Loaded, None);
      var p1 := QuizPlayer.Step(p0, QuizPlayer.Choose("2")).value.p;
      var p2 := QuizPlayer.Step(p1, QuizPlayer.Next).value.p;
      var p3 := QuizPlayer.Step(p2, QuizPlayer.Choose("3")).value.p;
      var p4 := QuizPlayer.Step(p3, QuizPlayer.Next).value.p;
      QuizPlayer.Step(p4, QuizPlayer.Finish) == Some(QuizPlayer.Submitted(Answered, 0))
  {
    var p0 := QuizPlayer.Start(Loaded, None);
    var p1 := p0.(answers := map["a" := "2"]);
    assert QuizPlayer.Step(p0, QuizPlayer.Choose("2")) == Some(QuizPlayer.Running(p1));
    var p2 := p1.(index := 1);
    assert QuizPlayer.Step(p1, QuizPlayer.Next) == Some(QuizPlayer.Running(p2));
    var p3 := p2.(answers := Answered);
    assert QuizPlayer.Step(p2, QuizPlayer.Choose("3")) == Some(QuizPlayer.Running(p3));
    var p4 := p3.(index := 2);
    assert QuizPlayer.Step(p3, QuizPlayer.Next) == Some(QuizPlayer.Running(p4));
  }

  /** One right answer out of three: the screen shows 1 right and a mark of
      3.3 rounded to 3, in a red ring. The percentage (33) and the grade
      colour (red), computed but never displayed, agree. Retrying clears the
      answers and keeps the questions. */
  lemma ResultStage()
    ensures var playing := QuizApp.App(QuizState(Playing, Loaded, map[], 0, 0, Some("quiz.txt")), false, Some(Plain));
      var shown := QuizApp.Step(playing, QuizApp.Submit(Answered, 0)).value;
      && shown.quiz.status == Finished
      && Review.CorrectCount(Loaded, Answered) == 1
      && Review.Score(shown.quiz.questions, shown.quiz.userAnswers) == Some(3)
      && Review.Percentage(shown.quiz.questions, shown.quiz.userAnswers) == Some(33)
      && !Review.PassRing(Review.Score(shown.quiz.questions, shown.quiz.userAnswers))
      && Review.GradeOf(Some(3)) == Review.Red
      && QuizApp.Step(shown, QuizApp.RetryQuiz)
        == Some(QuizApp.App(QuizState(Configure, Loaded, map[], 0, 0, Some("quiz.txt")), false, Some(Plain)))
  {
    var p := Review.CorrectFor(Answered);
    var third := [Q3.(id := "q_7_2")];
    assert Loaded[1..] == [Q2] + third && Loaded[1..][1..] == third && third[1..] == [];
    assert p(Loaded[0]) && !p(Q2) && !p(third[0]);
    assert Count(third, p) == 0;
    assert Count([Q2] + third, p) == 0;
    assert Review.CorrectCount(Loaded, Answered) == 1;
  }
}
