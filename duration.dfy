/** Duration labels: `getDurationText` in script.js. Four durations offered by
    the page have fixed Russian phrases; any other number of minutes is
    printed as "<minutes> минут". */
module Duration {
  import Decimal

  /** The suffix of the generic label. */
  const MinutesSuffix: string := " минут"

  /** The durations that have a phrase of their own. */
  predicate HasFixedPhrase(minutes: int) {
    minutes == 3 || minutes == 10080 || minutes == 43200 || minutes == 129600
  }

  /** Whether a label is the generic "<minutes> минут" form. */
  predicate IsGenericLabel(text: string) {
    |text| > |MinutesSuffix| && text[|text| - |MinutesSuffix|..] == MinutesSuffix
  }

  /** `getDurationText(minutes)`: the label is generic exactly when the
      duration has no fixed phrase, and then it prints the minutes. */
  function DurationText(minutes: int): (text: string)
    ensures IsGenericLabel(text) <==> !HasFixedPhrase(minutes)
    ensures !HasFixedPhrase(minutes) ==> text == Decimal.IntToDecimal(minutes) + MinutesSuffix
  {
    if minutes == 3 then "3 минуты"
    else if minutes == 10080 then "7 дней"
    else if minutes == 43200 then "30 дней"
    else if minutes == 129600 then "90 дней"
    else Decimal.IntToDecimal(minutes) + MinutesSuffix
  }

  /** Each fixed phrase is produced by its own duration and by no other. */
  lemma FixedPhrasesExactly(minutes: int)
    ensures DurationText(minutes) == "3 минуты" <==> minutes == 3
    ensures DurationText(minutes) == "7 дней" <==> minutes == 10080
    ensures DurationText(minutes) == "30 дней" <==> minutes == 43200
    ensures DurationText(minutes) == "90 дней" <==> minutes == 129600
  {
    assert !IsGenericLabel("3 минуты") && !IsGenericLabel("7 дней");
    assert !IsGenericLabel("30 дней") && !IsGenericLabel("90 дней");
  }

  /** The label determines the duration: two durations with the same label
      are equal. */
  lemma DurationTextInjective(a: int, b: int)
    requires DurationText(a) == DurationText(b)
    ensures a == b
  {
    FixedPhrasesExactly(a);
    FixedPhrasesExactly(b);
    if !HasFixedPhrase(a) && !HasFixedPhrase(b) {
      var da, db := Decimal.IntToDecimal(a), Decimal.IntToDecimal(b);
      assert |da| == |db|;
      assert da == (da + MinutesSuffix)[..|da|];
      assert db == (db + MinutesSuffix)[..|db|];
      Decimal.IntToDecimalInjective(a, b);
    }
  }
}
