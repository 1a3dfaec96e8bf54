/** The settings screen (components/QuizConfig.tsx): a draft configuration
    edited by three switches and a minutes field, handed over unchanged when
    the quiz is started. */
module ConfigForm {
  import opened Outcomes
  import opened Model
  import opened Decimal

  /** Both shuffles on, no timer, fifteen minutes. */
  const Default: QuizConfig := QuizConfig(true, true, false, 15)

  datatype Edit =
    | ToggleShuffleQuestions
    | ToggleShuffleOptions
    | SetTimer(checked: bool)
    | EditMinutes(text: string)

  /** `parseInt(value) || 1`: the integer the text starts with, or 1 when
      there is none (NaN) or it is 0. Negative numbers and numbers above the
      field's `max` of 180 are kept; the `min`/`max` attributes only guide
      the browser's spinner. */
  function CoerceMinutes(text: string): (m: int)
    ensures m != 0
    ensures ParseInt(text).Some? && ParseInt(text).value != 0 ==> m == ParseInt(text).value
    ensures ParseInt(text).None? || ParseInt(text).value == 0 ==> m == 1
  {
    match ParseInt(text)
    case None => 1
    case Some(v) => if v == 0 then 1 else v
  }

  /** The draft after one edit; `None` for the minutes field while the timer
      is off, because the field is not drawn then. */
  function Apply(c: QuizConfig, e: Edit): (r: Option<QuizConfig>)
    ensures r.None? <==> e.EditMinutes? && !c.enableTimer
  {
    match e
    case ToggleShuffleQuestions => Some(c.(shuffleQuestions := !c.shuffleQuestions))
    case ToggleShuffleOptions => Some(c.(shuffleOptions := !c.shuffleOptions))
    case SetTimer(checked) => Some(c.(enableTimer := checked))
    case EditMinutes(text) =>
      if c.enableTimer then Some(c.(timeMinutes := CoerceMinutes(text))) else None
  }

  /** Each switch changes its own field and nothing else, and a second press
      undoes the first. */
  lemma TogglesAreIndependent(c: QuizConfig)
    ensures var q := Apply(c, ToggleShuffleQuestions).value;
      q.shuffleQuestions != c.shuffleQuestions
      && q.shuffleOptions == c.shuffleOptions && q.enableTimer == c.enableTimer
      && q.timeMinutes == c.timeMinutes
      && Apply(q, ToggleShuffleQuestions) == Some(c)
    ensures var o := Apply(c, ToggleShuffleOptions).value;
      o.shuffleOptions != c.shuffleOptions
      && o.shuffleQuestions == c.shuffleQuestions && o.enableTimer == c.enableTimer
      && o.timeMinutes == c.timeMinutes
      && Apply(o, ToggleShuffleOptions) == Some(c)
  {
  }

  /** The timer checkbox sets the timer flag to its checked state and
      touches nothing else. */
  lemma TimerSwitch(c: QuizConfig, checked: bool)
    ensures Apply(c, SetTimer(checked)) == Some(QuizConfig(c.shuffleQuestions, c.shuffleOptions, checked, c.timeMinutes))
  {
  }

  /** Starting from the default, the minutes are never 0 whatever is edited. */
  lemma MinutesNeverZero(c: QuizConfig, e: Edit)
    requires c.timeMinutes != 0
    ensures Apply(c, e).Some? ==> Apply(c, e).value.timeMinutes != 0
  {
  }

  lemma DefaultMinutesNonZero()
    ensures Default.timeMinutes != 0
    ensures Default.shuffleQuestions && Default.shuffleOptions && !Default.enableTimer
  {
  }

  /** Typing a number stores that number, signs included, with any
      fractional part or exponent that follows it dropped. */
  lemma MinutesFromTypedNumber(n: int, rest: string)
    requires n != 0
    requires rest == [] || !IsDigit(rest[0])
    ensures CoerceMinutes(IntToString(n) + rest) == n
  {
    ParseIntOfIntToString(n, rest);
  }

  /** Concrete consequences: a negative entry is kept, there is no upper
      clamp, a decimal is truncated, and an empty field or a 0 gives 1. */
  lemma MinutesExamples()
    ensures CoerceMinutes("-5") == -5
    ensures CoerceMinutes("500") == 500
    ensures CoerceMinutes("12.7") == 12
    ensures CoerceMinutes("") == 1
    ensures CoerceMinutes("0") == 1
  {
    MinutesFromTypedNumber(-5, []);
    assert IntToString(-5) + [] == "-5";
    MinutesFromTypedNumber(500, []);
    assert IntToString(500) + [] == "500";
    MinutesFromTypedNumber(12, ".7");
    assert IntToString(12) + ".7" == "12.7";
    assert LeadingDigits(Unsigned("0")) == "0";
  }
}
