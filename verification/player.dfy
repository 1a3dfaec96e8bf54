/** The quiz screen (components/QuizPlayer.tsx): one question at a time,
    navigation, answer recording, a once-a-second tick that counts the time
    used and, when a limit was set, counts down and submits at zero.

    The tick is an interval callback created by an effect that re-runs only
    when the countdown changes. The callback's `handleSubmit` therefore sees
    the answers and time used of the render in which the effect last ran, not
    the latest ones; `armed` holds that capture. */
module QuizPlayer {
  import opened Outcomes
  import opened Model

  /** The answers and elapsed seconds the running interval's submit sees. */
  datatype Snapshot = Snapshot(answers: Answers, timeUsed: int)

  datatype Player = Player(
    questions: seq<Question>,
    index: int,
    answers: Answers,
    timeLeft: Option<int>,
    timeUsed: int,
    armed: Snapshot)

  /** The screen either keeps running or hands its answers and time used to
      the application. */
  datatype Outcome = Running(p: Player) | Submitted(answers: Answers, timeUsed: int)

  datatype Event =
    | Choose(option: string)
    | Prev
    | Next
    | Finish
    | SubmitNow
    | Jump(k: int)
    | Tick

  /** The screen as first shown: first question, nothing answered, no time
      used. `timeLimit || null` turns a zero limit into no countdown. */
  function Start(questions: seq<Question>, timeLimit: Option<int>): (p: Player)
    ensures p.index == 0 && p.answers == map[] && p.timeUsed == 0
    ensures p.timeLeft.None? <==> timeLimit.None? || timeLimit.value == 0
    ensures p.timeLeft.Some? ==> p.timeLeft == timeLimit
  {
    var left := if timeLimit.Some? && timeLimit.value != 0 then timeLimit else None;
    Player(questions, 0, map[], left, 0, Snapshot(map[], 0))
  }

  /** `questions[currentIdx]`, `undefined` when the index is out of range. */
  function Current(p: Player): (q: Option<Question>)
    ensures q.Some? <==> 0 <= p.index < |p.questions|
    ensures q.Some? ==> q.value == p.questions[p.index]
  {
    if 0 <= p.index < |p.questions| then Some(p.questions[p.index]) else None
  }

  predicate IsLast(p: Player) {
    p.index == |p.questions| - 1
  }

  /** The sidebar's "answered" figure: the number of keys in the answer map. */
  function AnsweredCount(p: Player): nat {
    |p.answers.Keys|
  }

  /** `handleSelect`: the current question's answer becomes `option`. */
  function Select(p: Player, option: string): (r: Player)
    requires Current(p).Some?
    ensures var id := Current(p).value.id;
      && id in r.answers && r.answers[id] == option
      && r.answers.Keys == p.answers.Keys + {id}
      && (forall k :: k in p.answers && k != id ==> r.answers[k] == p.answers[k])
    ensures r.questions == p.questions && r.index == p.index
    ensures r.timeLeft == p.timeLeft && r.timeUsed == p.timeUsed && r.armed == p.armed
  {
    p.(answers := p.answers[Current(p).value.id := option])
  }

  function Max(a: int, b: int): int { if a >= b then a else b }
  function Min(a: int, b: int): int { if a <= b then a else b }

  /** One interval tick. Without a countdown it only counts a second. With
      one, a value above 1 goes down by one and the effect re-runs, capturing
      the current answers; at 1 or below the captured submit fires. */
  function TickOf(p: Player): Outcome {
    match p.timeLeft
    case None => Running(p.(timeUsed := p.timeUsed + 1))
    case Some(t) =>
      if t <= 1 then Submitted(p.armed.answers, p.armed.timeUsed)
      else
        Running(p.(timeUsed := p.timeUsed + 1, timeLeft := Some(t - 1),
                   armed := Snapshot(p.answers, p.timeUsed + 1)))
  }

  /** What an event does; `None` when its control is not on the screen or is
      disabled. The screen cannot be drawn at all without a current question
      (reading `currentQuestion.text` throws), so then nothing is offered. */
  function Step(p: Player, e: Event): Option<Outcome> {
    if Current(p).None? then None
    else
      match e
      case Choose(option) =>
        if option in Current(p).value.options then Some(Running(Select(p, option))) else None
      case Prev =>
        if p.index == 0 then None else Some(Running(p.(index := Max(0, p.index - 1))))
      case Next =>
        if IsLast(p) then None else Some(Running(p.(index := Min(|p.questions| - 1, p.index + 1))))
      case Finish =>
        if IsLast(p) then Some(Submitted(p.answers, p.timeUsed)) else None
      case SubmitNow => Some(Submitted(p.answers, p.timeUsed))
      case Jump(k) =>
        if 0 <= k < |p.questions| then Some(Running(p.(index := k))) else None
      case Tick => Some(TickOf(p))
  }

  // ---- invariants ----

  /** Every recorded answer belongs to the id of some question. */
  predicate AnswersForQuestions(p: Player) {
    forall id :: id in p.answers ==> exists k :: 0 <= k < |p.questions| && p.questions[k].id == id
  }

  predicate Valid(p: Player) {
    0 <= p.index < |p.questions| && AnswersForQuestions(p)
  }

  lemma StartValid(questions: seq<Question>, timeLimit: Option<int>)
    requires |questions| >= 1
    ensures Valid(Start(questions, timeLimit))
  {
  }

  /** An empty quiz has no current question, so its screen cannot be shown. */
  lemma EmptyQuizHasNoQuestion(timeLimit: Option<int>)
    ensures Current(Start([], timeLimit)).None?
    ensures forall e :: Step(Start([], timeLimit), e).None?
  {
  }

  /** Every event keeps the index on a question and the answers keyed by
      question ids. */
  lemma StepKeepsValid(p: Player, e: Event)
    requires Valid(p)
    ensures Step(p, e).Some? && Step(p, e).value.Running? ==> Valid(Step(p, e).value.p)
  {
    if e.Choose? && Step(p, e).Some? {
      var r := Step(p, e).value.p;
      forall id | id in r.answers
        ensures exists k :: 0 <= k < |r.questions| && r.questions[k].id == id
      {
        if id == Current(p).value.id {
          assert r.questions[p.index].id == id;
        }
      }
    }
  }

  /** Stepping back and then forward returns to the same question. */
  lemma PrevThenNext(p: Player)
    requires Valid(p) && p.index > 0
    ensures var back := Step(p, Prev);
      back.Some? && back.value.Running?
      && Step(back.value.p, Next) == Some(Running(p))
  {
  }

  /** Stepping forward and then back returns to the same question. */
  lemma NextThenPrev(p: Player)
    requires Valid(p) && !IsLast(p)
    ensures var fwd := Step(p, Next);
      fwd.Some? && fwd.value.Running?
      && Step(fwd.value.p, Prev) == Some(Running(p))
  {
  }

  /** Choosing again for the same question keeps only the last choice. */
  lemma ChooseOverwrites(p: Player, a: string, b: string)
    requires Current(p).Some?
    ensures Select(Select(p, a), b) == Select(p, b)
  {
  }

  // ---- the answered count ----

  function Ids(qs: seq<Question>): (ids: set<string>)
    ensures forall id :: id in ids <==> exists k :: 0 <= k < |qs| && qs[k].id == id
  {
    set k | 0 <= k < |qs| :: qs[k].id
  }

  lemma {:induction false} IdsAtMostQuestions(qs: seq<Question>)
    ensures |Ids(qs)| <= |qs|
    decreases |qs|
  {
    if qs != [] {
      IdsAtMostQuestions(qs[1..]);
      assert Ids(qs) == {qs[0].id} + Ids(qs[1..]) by {
        forall id | id in Ids(qs) ensures id in {qs[0].id} + Ids(qs[1..]) {
          var k :| 0 <= k < |qs| && qs[k].id == id;
          if k > 0 { assert qs[1..][k - 1] == qs[k]; }
        }
        forall id | id in Ids(qs[1..]) ensures id in Ids(qs) {
          var k :| 0 <= k < |qs[1..]| && qs[1..][k].id == id;
          assert qs[k + 1] == qs[1..][k];
        }
      }
    }
  }

  lemma SubsetCard(a: set<string>, b: set<string>)
    requires a <= b
    ensures |a| <= |b|
  {
    assert b == a + (b - a);
  }

  /** The "answered" figure never exceeds the number of questions. */
  lemma AnsweredAtMostQuestions(p: Player)
    requires AnswersForQuestions(p)
    ensures AnsweredCount(p) <= |p.questions|
  {
    assert p.answers.Keys <= Ids(p.questions);
    SubsetCard(p.answers.Keys, Ids(p.questions));
    IdsAtMostQuestions(p.questions);
  }

  /** Choosing raises the figure by one for a first answer to the question and
      leaves it alone when changing an answer. */
  lemma ChooseCounts(p: Player, option: string)
    requires Current(p).Some?
    ensures var id := Current(p).value.id;
      AnsweredCount(Select(p, option)) == AnsweredCount(p) + (if id in p.answers then 0 else 1)
  {
    var id := Current(p).value.id;
    if id !in p.answers {
      assert Select(p, option).answers.Keys == p.answers.Keys + {id};
    } else {
      assert Select(p, option).answers.Keys == p.answers.Keys;
    }
  }

  // ---- the clock ----

  /** Without a countdown a tick counts one second and changes nothing else;
      the quiz is never submitted by the clock. */
  lemma TickWithoutCountdown(p: Player)
    requires p.timeLeft.None?
    ensures TickOf(p) == Running(p.(timeUsed := p.timeUsed + 1))
  {
  }

  /** With a countdown above one second a tick moves both clocks by one; at
      one second or less it submits what the interval captured. */
  lemma TickWithCountdown(p: Player)
    requires p.timeLeft.Some?
    ensures p.timeLeft.value > 1 ==> (
      && TickOf(p).Running?
      && TickOf(p).p.timeLeft == Some(p.timeLeft.value - 1)
      && TickOf(p).p.timeUsed == p.timeUsed + 1
      && TickOf(p).p.answers == p.answers
      && TickOf(p).p.index == p.index)
    ensures p.timeLeft.value <= 1 ==> TickOf(p) == Submitted(p.armed.answers, p.armed.timeUsed)
  {
  }

  /** `k` ticks with nothing else happening. */
  function Ticks(p: Player, k: nat): Outcome
    decreases k
  {
    if k == 0 then Running(p)
    else
      match TickOf(p)
      case Running(q) => Ticks(q, k - 1)
      case s => s
  }

  /** After `k` quiet ticks below the limit the countdown shows `limit - k`
      and the interval has captured `k` seconds used. */
  lemma {:induction false} QuietTicks(questions: seq<Question>, limit: int, k: nat)
    requires 1 <= k < limit
    ensures var s := Ticks(Start(questions, Some(limit)), k);
      s.Running? && s.p.timeLeft == Some(limit - k) && s.p.timeUsed == k
      && s.p.answers == map[] && s.p.armed == Snapshot(map[], k)
    decreases k
  {
    var p0 := Start(questions, Some(limit));
    if k == 1 {
      assert TickOf(p0).Running?;
    } else {
      QuietTicks(questions, limit, k - 1);
      TicksStep(p0, k - 1);
    }
  }

  lemma {:induction false} TicksStep(p: Player, k: nat)
    requires Ticks(p, k).Running?
    ensures Ticks(p, k + 1) == match TickOf(Ticks(p, k).p) case Running(q) => Running(q) case s => s
    decreases k
  {
    if k > 0 {
      TicksStep(TickOf(p).p, k - 1);
    }
  }

  /** A quiz left alone until the countdown runs out is submitted with no
      answers and reports one second less than the limit: the final tick
      submits the capture made by the tick before it. */
  lemma TimeoutReportsOneSecondLess(questions: seq<Question>, limit: int)
    requires limit >= 1
    ensures Ticks(Start(questions, Some(limit)), limit) == Submitted(map[], limit - 1)
  {
    if limit >= 2 {
      QuietTicks(questions, limit, limit - 1);
      TicksStep(Start(questions, Some(limit)), limit - 1);
    }
  }

  /** An answer chosen during the last second, for a question not answered
      before, is missing from what the countdown submits. */
  lemma LastSecondChoiceLost(p: Player, option: string)
    requires Current(p).Some? && Current(p).value.id !in p.answers
    requires p.timeLeft == Some(1) && p.armed.answers == p.answers
    ensures var q := Select(p, option);
      TickOf(q).Submitted? && Current(p).value.id !in TickOf(q).answers
  {
  }
}
