/** The result screen (components/QuizResult.tsx): how many answers were
    right, the rounded mark out of 10 and the colour of its ring, the
    accordion of reviewed questions and the colouring of each option. The
    component also computes a percentage and defines a grade colouring,
    `getGradeColor`, but displays neither; both are modelled to show how they
    relate to what is displayed. */
module Review {
  import opened Outcomes
  import opened Model
  import opened Arith
  import opened Permutations

  /** The recorded answer is the correct one. An unanswered question reads as
      `undefined`, which equals no string, so it is never correct. */
  predicate IsCorrect(answers: Answers, q: Question) {
    q.id in answers && answers[q.id] == q.correctAnswer
  }

  function CorrectFor(answers: Answers): Question -> bool {
    (q: Question) => IsCorrect(answers, q)
  }

  function WrongFor(answers: Answers): Question -> bool {
    (q: Question) => !IsCorrect(answers, q)
  }

  /** The number of questions answered correctly, defined by counting. */
  function CorrectCount(qs: seq<Question>, answers: Answers): nat {
    Count(qs, CorrectFor(answers))
  }

  /** The `forEach` loop that tallies correct answers, one question at a
      time. */
  method CountCorrect(qs: seq<Question>, answers: Answers) returns (c: nat)
    ensures c == CorrectCount(qs, answers)
    ensures c <= |qs|
  {
    c := 0;
    for i := 0 to |qs|
      invariant c == CorrectCount(qs[..i], answers)
    {
      CountAppend(qs[..i], [qs[i]], CorrectFor(answers));
      assert qs[..i + 1] == qs[..i] + [qs[i]];
      if IsCorrect(answers, qs[i]) {
        c := c + 1;
      }
    }
    assert qs[..|qs|] == qs;
  }

  /** The "wrong" tile shows the question count minus the correct count; that
      is exactly the number of questions not answered correctly, blanks
      included. */
  lemma {:induction false} WrongTileCountsIncorrect(qs: seq<Question>, answers: Answers)
    ensures |qs| - CorrectCount(qs, answers) == Count(qs, WrongFor(answers))
    decreases |qs|
  {
    if qs != [] {
      WrongTileCountsIncorrect(qs[1..], answers);
    }
  }

  /** Full marks in the count exactly when every question is answered
      correctly. */
  lemma AllCorrectIff(qs: seq<Question>, answers: Answers)
    ensures CorrectCount(qs, answers) == |qs| <==> forall k :: 0 <= k < |qs| ==> IsCorrect(answers, qs[k])
  {
    CountAll(qs, CorrectFor(answers));
  }

  /** With no answers recorded nothing is counted. */
  lemma NoAnswersNoneCorrect(qs: seq<Question>)
    ensures CorrectCount(qs, map[]) == 0
  {
    CountNone(qs, CorrectFor(map[]));
  }

  /** A question whose correct answer is not among its options can never be
      answered correctly by picking an option. */
  lemma MissingCorrectAnswerNeverScores(answers: Answers, q: Question)
    requires q.correctAnswer !in q.options
    requires q.id in answers ==> answers[q.id] in q.options
    ensures !IsCorrect(answers, q)
  {
  }

  // ---- marks ----

  /** `Math.round(c / n * scale)` computed exactly: the nearest integer to
      `scale * c / n`, halves rounded up. With no questions the quotient is
      NaN, here `None`. */
  function RoundedShare(c: nat, n: nat, scale: nat): (r: Option<int>)
    ensures r.None? <==> n == 0
    ensures r.Some? ==> 2 * n * r.value <= 2 * scale * c + n < 2 * n * r.value + 2 * n
  {
    if n == 0 then None
    else
      FloorDiv(2 * scale * c + n, 2 * n, 0);
      Some((2 * scale * c + n) / (2 * n))
  }

  /** A rounded share of at most everything lies between 0 and the scale. */
  lemma RoundedShareBounds(c: nat, n: nat, scale: nat)
    requires 0 < n && c <= n
    ensures var r := RoundedShare(c, n, scale).value; 0 <= r <= scale
  {
    var a, d := 2 * scale * c + n, 2 * n;
    DivAtLeast(a, d, 0);
    DivAtLeast(a, d, scale + 1);
    MulMonotone(2 * scale, c, n);
  }

  /** More correct answers never lower the mark. */
  lemma RoundedShareMonotone(c1: nat, c2: nat, n: nat, scale: nat)
    requires 0 < n && c1 <= c2
    ensures RoundedShare(c1, n, scale).value <= RoundedShare(c2, n, scale).value
  {
    var r1 := RoundedShare(c1, n, scale).value;
    MulMonotone(2 * scale, c1, c2);
    DivAtLeast(2 * scale * c2 + n, 2 * n, r1);
  }

  /** The mark out of 10. */
  function Score(qs: seq<Question>, answers: Answers): Option<int> {
    RoundedShare(CorrectCount(qs, answers), |qs|, 10)
  }

  /** The percentage, computed but not displayed. */
  function Percentage(qs: seq<Question>, answers: Answers): Option<int> {
    RoundedShare(CorrectCount(qs, answers), |qs|, 100)
  }

  /** The marks exist exactly when there is a question, and then lie within
      0..10 and 0..100. */
  lemma MarksInRange(qs: seq<Question>, answers: Answers)
    ensures Score(qs, answers).Some? <==> |qs| > 0
    ensures Percentage(qs, answers).Some? <==> |qs| > 0
    ensures |qs| > 0 ==> 0 <= Score(qs, answers).value <= 10
    ensures |qs| > 0 ==> 0 <= Percentage(qs, answers).value <= 100
  {
    if |qs| > 0 {
      RoundedShareBounds(CorrectCount(qs, answers), |qs|, 10);
      RoundedShareBounds(CorrectCount(qs, answers), |qs|, 100);
    }
  }

  /** A mark of 5 or more, the pass threshold, means at least 45% correct. */
  lemma PassMeansAtLeast45Percent(c: nat, n: nat)
    requires 0 < n
    ensures RoundedShare(c, n, 10).value >= 5 <==> 20 * c >= 9 * n
  {
    DivAtLeast(20 * c + n, 2 * n, 5);
  }

  /** A mark of 8 or more, the green band, means at least 75% correct. */
  lemma GreenMeansAtLeast75Percent(c: nat, n: nat)
    requires 0 < n
    ensures RoundedShare(c, n, 10).value >= 8 <==> 4 * c >= 3 * n
  {
    DivAtLeast(20 * c + n, 2 * n, 8);
  }

  // ---- grade colours ----

  datatype Grade = Green | Yellow | Red

  /** `getGradeColor`, defined but never called: 8 and above green, 5 to 7
      yellow, below red. A NaN mark fails both comparisons and is red. */
  function GradeOf(score: Option<int>): (g: Grade)
    ensures g == Green ==> score.Some? && score.value >= 8
    ensures g == Yellow ==> score.Some? && 5 <= score.value < 8
    ensures g == Red ==> score.None? || score.value < 5
  {
    if score.Some? && score.value >= 8 then Green
    else if score.Some? && score.value >= 5 then Yellow
    else Red
  }

  function Rank(g: Grade): nat {
    match g
    case Red => 0
    case Yellow => 1
    case Green => 2
  }

  /** A higher mark never gets a worse colour. */
  lemma GradeMonotone(s: int, t: int)
    requires s <= t
    ensures Rank(GradeOf(Some(s))) <= Rank(GradeOf(Some(t)))
  {
  }

  /** The score ring's colour, a separate comparison in the markup: green
      for a mark of 5 or more. */
  predicate PassRing(score: Option<int>) {
    score.Some? && score.value >= 5
  }

  /** The ring is green exactly when the grade is not red: the two
      thresholds agree. */
  lemma PassRingAgreesWithGrade(score: Option<int>)
    ensures PassRing(score) <==> GradeOf(score) != Red
  {
  }

  // ---- the review list ----

  /** `toggleExpand`: clicking the open question closes it, clicking any
      other opens that one instead. */
  function ToggleExpand(expanded: Option<string>, id: string): (r: Option<string>)
    ensures r.None? <==> expanded == Some(id)
    ensures r.Some? ==> r.value == id
  {
    if expanded == Some(id) then None else Some(id)
  }

  /** Clicking a question twice restores the list when that question or
      none was open; when another one was open, the first click moved the
      accordion to the clicked question and the second closes it. */
  lemma ToggleTwice(expanded: Option<string>, id: string)
    ensures expanded.None? || expanded == Some(id)
      ==> ToggleExpand(ToggleExpand(expanded, id), id) == expanded
    ensures expanded.Some? && expanded.value != id
      ==> ToggleExpand(ToggleExpand(expanded, id), id) == None
  {
  }

  function IsExpandedRow(expanded: Option<string>): Question -> bool {
    (q: Question) => expanded == Some(q.id)
  }

  predicate UniqueIds(qs: seq<Question>) {
    forall j, k :: 0 <= j < k < |qs| ==> qs[j].id != qs[k].id
  }

  /** With unique ids at most one question is open at a time. */
  lemma {:induction false} AtMostOneExpanded(qs: seq<Question>, expanded: Option<string>)
    requires UniqueIds(qs)
    ensures Count(qs, IsExpandedRow(expanded)) <= 1
    decreases |qs|
  {
    if qs != [] {
      var rest := qs[1..];
      assert UniqueIds(rest) by {
        forall j, k | 0 <= j < k < |rest| ensures rest[j].id != rest[k].id {
          assert rest[j] == qs[j + 1] && rest[k] == qs[k + 1];
        }
      }
      if expanded == Some(qs[0].id) {
        assert forall k :: 0 <= k < |rest| ==> !IsExpandedRow(expanded)(rest[k]) by {
          forall k | 0 <= k < |rest| ensures !IsExpandedRow(expanded)(rest[k]) {
            assert rest[k] == qs[k + 1];
          }
        }
        CountNone(rest, IsExpandedRow(expanded));
      } else {
        AtMostOneExpanded(rest, expanded);
      }
    }
  }

  /** Ids are not checked for uniqueness, and two questions sharing an id open
      and close together. */
  lemma SharedIdExpandsTogether(q1: Question, q2: Question)
    requires q1.id == q2.id
    ensures Count([q1, q2], IsExpandedRow(ToggleExpand(None, q1.id))) == 2
  {
    assert [q1, q2][1..] == [q2];
  }

  /** Per-row verdicts, computed in the markup as `userAnswer ===
      q.correctAnswer`, one per question in order. */
  function RowVerdicts(qs: seq<Question>, answers: Answers): (v: seq<bool>)
    ensures |v| == |qs|
  {
    seq(|qs|, k requires 0 <= k < |qs| => qs[k].id in answers && answers[qs[k].id] == qs[k].correctAnswer)
  }

  function IsTrue(b: bool): bool { b }

  /** The rows drawn green are as many as the correct count on the score
      card: both use the same comparison. */
  lemma {:induction false} GreenRowsMatchCount(qs: seq<Question>, answers: Answers)
    ensures Count(RowVerdicts(qs, answers), IsTrue) == CorrectCount(qs, answers)
    decreases |qs|
  {
    if qs != [] {
      assert RowVerdicts(qs, answers)[1..] == RowVerdicts(qs[1..], answers);
      GreenRowsMatchCount(qs[1..], answers);
    }
  }

  // ---- option colouring ----

  datatype Mark = CorrectOption | WrongPick | Plain

  /** The colour of one option in an opened question: the correct option is
      green whatever was picked; otherwise the picked option is red when the
      answer was wrong; everything else is plain. */
  function Highlight(q: Question, userAnswer: Option<string>, opt: string): (m: Mark) {
    var isCorrect := userAnswer == Some(q.correctAnswer);
    if opt == q.correctAnswer then CorrectOption
    else if userAnswer == Some(opt) && !isCorrect then WrongPick
    else Plain
  }

  /** Exactly one of the three colours applies: green for the correct
      option, red for a picked option that is not correct (the extra
      "answer was wrong" test never changes the outcome), plain otherwise. */
  lemma HighlightCases(q: Question, userAnswer: Option<string>, opt: string)
    ensures Highlight(q, userAnswer, opt) == CorrectOption <==> opt == q.correctAnswer
    ensures Highlight(q, userAnswer, opt) == WrongPick <==> opt != q.correctAnswer && userAnswer == Some(opt)
  {
  }

  function OptionMarks(q: Question, userAnswer: Option<string>): (ms: seq<Mark>)
    ensures |ms| == |q.options|
  {
    seq(|q.options|, k requires 0 <= k < |q.options| => Highlight(q, userAnswer, q.options[k]))
  }

  /** A correctly answered question shows no red option, and some option is
      green exactly when the correct answer is one of the options. */
  lemma OptionMarksAgree(q: Question, userAnswer: Option<string>)
    ensures userAnswer == Some(q.correctAnswer) ==> WrongPick !in OptionMarks(q, userAnswer)
    ensures CorrectOption in OptionMarks(q, userAnswer) <==> q.correctAnswer in q.options
    ensures WrongPick in OptionMarks(q, userAnswer)
      <==> userAnswer.Some? && userAnswer.value != q.correctAnswer && userAnswer.value in q.options
  {
    var ms := OptionMarks(q, userAnswer);
    if q.correctAnswer in q.options {
      var k :| 0 <= k < |q.options| && q.options[k] == q.correctAnswer;
      assert ms[k] == CorrectOption;
    }
    if userAnswer.Some? && userAnswer.value != q.correctAnswer && userAnswer.value in q.options {
      var k :| 0 <= k < |q.options| && q.options[k] == userAnswer.value;
      assert ms[k] == WrongPick;
    }
  }
}
