/** How the two screens spell a number of seconds: the player's countdown as
    `m:ss` and the result screen's time taken as `m phút s giây`. Both compute
    the minutes with `Math.floor(seconds / 60)` and the seconds with
    JavaScript's `%`, whose remainder takes the sign of the dividend. */
module Clock {
  import opened Outcomes
  import opened Decimal
  import opened Strings
  import opened Arith

  /** JavaScript's `a % 60`: `a` minus the multiple of sixty nearest to zero,
      so the remainder has the sign of `a`. */
  function JsRem60(a: int): (r: int)
    ensures -60 < r < 60
    ensures (a - r) % 60 == 0
    ensures r > 0 ==> a > 0
    ensures r < 0 ==> a < 0
  {
    if a >= 0 then a % 60 else -((-a) % 60)
  }

  /** `s.padStart(2, '0')`. */
  function PadStart2(s: string): (r: string)
    ensures |r| == if |s| < 2 then 2 else |s|
    ensures r[|r| - |s|..] == s
    ensures forall k :: 0 <= k < |r| - |s| ==> r[k] == '0'
  {
    if |s| == 0 then "00" else if |s| == 1 then ['0'] + s else s
  }

  /** The player's `formatTime`: minutes, a colon, and the seconds padded to
      two characters. */
  function FormatClock(seconds: int): string {
    IntToString(seconds / 60) + ":" + PadStart2(IntToString(JsRem60(seconds)))
  }

  /** Reads `m:ss` back: exactly one colon with an integer on each side. */
  function ReadClock(t: string): Option<int> {
    var parts := Split(t, ':');
    if |parts| != 2 then None else MinutesAndSeconds(parts[0], parts[1])
  }

  /** Two integer fields, minutes and seconds, as a count of seconds. */
  function MinutesAndSeconds(a: string, b: string): Option<int> {
    match (ParseInt(a), ParseInt(b))
    case (Some(m), Some(r)) => Some(m * 60 + r)
    case _ => None
  }

  /** For a non-negative count reading the text back gives the count:
      minutes times sixty plus seconds recovers it, so no second is lost or
      gained by the display. */
  lemma ReadFormatClock(seconds: int)
    requires seconds >= 0
    ensures ReadClock(FormatClock(seconds)) == Some(seconds)
  {
    MinutesAndRest(seconds);
    ClockFieldsParse(seconds);
    ReadClockOfFields(FormatClock(seconds), seconds / 60, seconds % 60);
  }

  /** For a non-negative count the seconds field is exactly two digits. */
  lemma ClockSecondsField(seconds: int)
    requires seconds >= 0
    ensures var parts := Split(FormatClock(seconds), ':');
      |parts| == 2 && |parts[1]| == 2 && AllDigits(parts[1])
  {
    ClockWords(seconds);
    SecondsField(seconds % 60);
  }

  lemma MinutesAndRest(seconds: int)
    ensures seconds / 60 * 60 + seconds % 60 == seconds && 0 <= seconds % 60 < 60
  {
  }

  /** The two colon-separated fields of the clock text. */
  lemma ClockWords(seconds: int)
    requires seconds >= 0
    ensures Split(FormatClock(seconds), ':') == [IntToString(seconds / 60), PadStart2(IntToString(seconds % 60))]
  {
    var a, b := IntToString(seconds / 60), PadStart2(IntToString(seconds % 60));
    assert JsRem60(seconds) == seconds % 60;
    assert FormatClock(seconds) == a + [':'] + b;
    SecondsField(seconds % 60);
    NoColonInDigits(a);
    NoColonInDigits(b);
    SplitPair(a, b, ':');
  }

  /** The two fields read as the minutes and the seconds. */
  lemma ClockFieldsParse(seconds: int)
    requires seconds >= 0
    ensures var parts := Split(FormatClock(seconds), ':');
      |parts| == 2 && ParseInt(parts[0]) == Some(seconds / 60) && ParseInt(parts[1]) == Some(seconds % 60)
  {
    ClockWords(seconds);
    SecondsField(seconds % 60);
    ParseIntOfIntToStringAlone(seconds / 60);
  }

  lemma ReadClockOfFields(t: string, m: int, r: int)
    requires |Split(t, ':')| == 2
    requires ParseInt(Split(t, ':')[0]) == Some(m) && ParseInt(Split(t, ':')[1]) == Some(r)
    ensures ReadClock(t) == Some(m * 60 + r)
  {
    ReadFields(Split(t, ':')[0], Split(t, ':')[1], m, r);
  }

  lemma NoColonInDigits(s: string)
    requires AllDigits(s)
    ensures ':' !in s && ' ' !in s
  {
    forall i | 0 <= i < |s| ensures s[i] != ':' && s[i] != ' ' {
      assert IsDigit(s[i]);
    }
  }

  lemma ReadFields(a: string, b: string, m: int, r: int)
    requires ParseInt(a) == Some(m) && ParseInt(b) == Some(r)
    ensures MinutesAndSeconds(a, b) == Some(m * 60 + r)
  {
  }

  /** The padded seconds field: two digits spelling `r`. */
  lemma SecondsField(r: int)
    requires 0 <= r < 60
    ensures var b := PadStart2(IntToString(r));
      |b| == 2 && AllDigits(b) && ParseInt(b) == Some(r)
  {
    var d := IntToString(r);
    var b := PadStart2(d);
    ParseIntOfIntToString(r, []);
    assert d + [] == d;
    if r < 10 {
      assert b == ['0'] + d;
      DigitsValueLeadingZero(d);
      DigitsValueOfNatToString(r);
      LeadingDigitsOfDigits(b, []);
      assert b + [] == b;
    } else {
      assert |d| == 2 by { assert d == NatToString(r / 10) + [DigitChar(r % 10)]; }
    }
  }

  /** A whole number of minutes, the only kind of count a time limit
      gives, shows as the minutes and `:00`; for a negative limit the minutes
      carry the sign. */
  lemma FormatWholeMinutes(m: int)
    ensures FormatClock(m * 60) == IntToString(m) + ":00"
  {
    DivModOf(m, 0, 60);
    if m < 0 {
      DivModOf(-m, 0, 60);
      assert JsRem60(m * 60) == -((-m * 60) % 60) == 0;
    }
    assert IntToString(0) == "0" by { assert NatToString(0) == "0"; }
  }

  /** The result screen's `formatTime`: minutes and seconds, unpadded, each
      followed by its Vietnamese unit. */
  function FormatDuration(seconds: int): string {
    IntToString(seconds / 60) + " phút " + IntToString(JsRem60(seconds)) + " giây"
  }

  /** Reads `m phút s giây` back. */
  function ReadDuration(t: string): Option<int> {
    var parts := Split(t, ' ');
    if |parts| != 4 || parts[1] != "phút" || parts[3] != "giây" then None
    else MinutesAndSeconds(parts[0], parts[2])
  }

  /** The four space-separated words of the duration text. */
  lemma DurationWords(seconds: int)
    requires seconds >= 0
    ensures Split(FormatDuration(seconds), ' ')
      == [IntToString(seconds / 60), "phút", IntToString(seconds % 60), "giây"]
  {
    var a, b := IntToString(seconds / 60), IntToString(seconds % 60);
    var parts := [a, "phút", b, "giây"];
    assert ' ' !in a by { assert AllDigits(a); }
    assert ' ' !in b by { assert AllDigits(b); }
    assert Join(parts, ' ') == FormatDuration(seconds) by {
      assert parts[1..][1..][1..] == ["giây"];
      assert parts[1..][1..] == [b, "giây"];
      assert parts[1..] == ["phút", b, "giây"];
      assert Join(["giây"], ' ') == "giây";
      assert Join([b, "giây"], ' ') == b + [' '] + "giây";
      assert Join(["phút", b, "giây"], ' ') == "phút" + [' '] + (b + [' '] + "giây");
      assert JsRem60(seconds) == seconds % 60;
    }
    SplitJoin(parts, ' ');
  }

  /** For a non-negative count the displayed seconds are below sixty and the
      text reads back as the count. */
  lemma ReadFormatDuration(seconds: int)
    requires seconds >= 0
    ensures var parts := Split(FormatDuration(seconds), ' ');
      |parts| == 4 && ParseInt(parts[2]).Some? && 0 <= ParseInt(parts[2]).value < 60
    ensures ReadDuration(FormatDuration(seconds)) == Some(seconds)
  {
    var m, r := seconds / 60, seconds % 60;
    assert m * 60 + r == seconds && 0 <= r < 60;
    DurationWords(seconds);
    ReadDurationOfWords(FormatDuration(seconds), m, r);
  }

  lemma ReadDurationOfWords(t: string, m: int, r: int)
    requires Split(t, ' ') == [IntToString(m), "phút", IntToString(r), "giây"]
    ensures ParseInt(Split(t, ' ')[2]) == Some(r)
    ensures ReadDuration(t) == Some(m * 60 + r)
  {
    ParseIntOfIntToStringAlone(m);
    ParseIntOfIntToStringAlone(r);
    ReadFields(IntToString(m), IntToString(r), m, r);
  }
}
