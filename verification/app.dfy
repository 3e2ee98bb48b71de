/**
 * The client's display helpers: reading a `YYYY-MM-DD` string as a local
 * date, the day with its English ordinal suffix, when a month header row
 * is shown, which rows count as knitted, and what clicking a row does to
 * the progress date.
 */
module App {
  import opened Wrappers
  import opened JsText
  import opened JsDate
  import Lex
  import DailyTemperatures

  // ------------------------------------------------------- parseLocalDate

  /** `n - 1` on a JavaScript number. */
  function Pred(n: Num): (r: Num)
    ensures r.Int? <==> n.Int?
    ensures r.Int? ==> r.value + 1 == n.value
  {
    match n
    case Int(v) => Int(v - 1)
    case NaN => NaN
  }

  /** `parseLocalDate(s)`: the pieces between dashes read with `Number`,
      a missing month or day taken as 1, the month counted from 1. */
  function ParseLocalDate(s: string): (r: LocalDate)
    ensures r.Date? ==> IsCalendarDate(r.year, r.month, r.day)
  {
    var parts := Split(s, '-');
    var year := ToNumber(parts[0]);
    var month := if |parts| > 1 then ToNumber(parts[1]) else Int(1);
    var day := if |parts| > 2 then ToNumber(parts[2]) else Int(1);
    MakeDate(year, Pred(month), day)
  }

  /** `y-m-d` as stored in the daily table. */
  function DateText(y: string, m: string, d: string): string
  {
    y + ['-'] + m + ['-'] + d
  }

  /** Three non-empty runs of digits naming a calendar date, the month
      counted from 1. */
  predicate WellFormedDate(ys: string, ms: string, ds: string)
  {
    && |ys| > 0 && AllDigits(ys)
    && |ms| > 0 && AllDigits(ms)
    && |ds| > 0 && AllDigits(ds)
    && IsCalendarDate(FullYear(DecimalValue(ys)), DecimalValue(ms) - 1, DecimalValue(ds))
  }

  /** Three runs of digits joined by dashes, naming a real calendar date,
      read as that date (months counted from 1, two-digit years as 19xx). */
  lemma ParseLocalDateOfDigits(ys: string, ms: string, ds: string)
    requires WellFormedDate(ys, ms, ds)
    ensures ParseLocalDate(DateText(ys, ms, ds))
      == Date(FullYear(DecimalValue(ys)), DecimalValue(ms) - 1, DecimalValue(ds))
  {
    var parts := [ys, ms, ds];
    assert forall i :: 0 <= i < 3 ==> '-' !in parts[i];
    SplitJoin(parts, '-');
    assert Join(parts, '-') == DateText(ys, ms, ds) by {
      assert parts[1..] == [ms, ds] && [ms, ds][1..] == [ds];
      assert Join([ms, ds], '-') == ms + ['-'] + ds;
    }
    ToNumberOfDigits(ys);
    ToNumberOfDigits(ms);
    ToNumberOfDigits(ds);
    MakeDateInRange(DecimalValue(ys), DecimalValue(ms) - 1, DecimalValue(ds));
  }

  /** A missing day is read as 1, and a missing month as January. */
  lemma ParseLocalDateDefaults(ys: string, ms: string)
    requires '-' !in ys && '-' !in ms
    ensures ParseLocalDate(ys) == MakeDate(ToNumber(ys), Int(0), Int(1))
    ensures ParseLocalDate(ys + ['-'] + ms) == MakeDate(ToNumber(ys), Pred(ToNumber(ms)), Int(1))
  {
    SplitWithoutSeparator(ys, '-');
    SplitWithoutSeparator(ms, '-');
    SplitAfterPiece(ys, '-', ms);
  }

  // -------------------------------------------------------- getOrdinalDay

  const Suffixes: seq<string> := ["th", "st", "nd", "rd"]

  /** `suffix[i]`: present for 0..3, undefined otherwise. */
  function SuffixAt(i: int): Option<string>
  {
    if 0 <= i < |Suffixes| then Some(Suffixes[i]) else None
  }

  /** The suffix for `v = day % 100`: `suffix[(v - 20) % 10]`, else
      `suffix[v]`, else "th", with `%` truncating toward zero. */
  function SuffixOfLastTwo(v: int): (r: string)
    ensures r in Suffixes
  {
    match SuffixAt(TruncRem(v - 20, 10))
    case Some(s) => s
    case None =>
      match SuffixAt(v)
      case Some(s) => s
      case None => "th"
  }

  /** The suffix `getOrdinalDay` appends to a day; NaN indexes nothing and
      gets "th". */
  function OrdinalSuffix(day: Num): (r: string)
    ensures r in Suffixes
  {
    match day
    case NaN => "th"
    case Int(d) => SuffixOfLastTwo(TruncRem(d, 100))
  }

  /** The English rule, stated independently: 11th, 12th, 13th (also in
      every hundred), otherwise 1st, 2nd, 3rd by the last digit, else th. */
  function EnglishSuffix(n: nat): string
  {
    if 11 <= n % 100 <= 13 then "th"
    else if n % 10 == 1 then "st"
    else if n % 10 == 2 then "nd"
    else if n % 10 == 3 then "rd"
    else "th"
  }

  lemma LastDigitOfLastTwo(n: nat)
    ensures (n % 100) % 10 == n % 10
  {
    var q := n / 100;
    assert n == 10 * (10 * q) + n % 100;
  }

  /** The table lookup on the last two digits follows the English rule. */
  lemma SuffixOfLastTwoEnglish(v: nat)
    requires v < 100
    ensures SuffixOfLastTwo(v) == EnglishSuffix(v)
  {
    if v < 10 {
      assert TruncRem(v - 20, 10) == if v == 0 then 0 else v - 10;
    } else if v < 20 {
      assert TruncRem(v - 20, 10) == if v == 10 then 0 else v - 20;
    } else {
      assert TruncRem(v - 20, 10) == v % 10;
    }
  }

  /** For every non-negative day the table lookup agrees with the English rule. */
  lemma OrdinalSuffixEnglish(n: nat)
    ensures OrdinalSuffix(Int(n)) == EnglishSuffix(n)
  {
    SuffixOfLastTwoEnglish(n % 100);
    LastDigitOfLastTwo(n);
    assert (n % 100) % 100 == n % 100;
  }

  /** A negative number only ever indexes below 0 or at 0, so it gets "th". */
  lemma OrdinalSuffixNegative(n: int)
    requires n < 0
    ensures OrdinalSuffix(Int(n)) == "th"
  {
    var v := TruncRem(n, 100);
    assert TruncRem(v - 20, 10) <= 0;
  }

  /** `getOrdinalDay(date)`: the day of the month followed by its suffix. */
  function GetOrdinalDay(date: string): (r: string)
    ensures |r| > 2 && r[|r| - 2..] in Suffixes
  {
    var day := GetDate(ParseLocalDate(date));
    var text := NumToString(day);
    var suffix := OrdinalSuffix(day);
    assert |suffix| == 2 && (text + suffix)[|text|..] == suffix;
    text + suffix
  }

  /** On a well-formed date the ordinal is the day's decimal text and its
      English suffix: 1st, 2nd, 3rd, 4th, ..., 11th, 12th, 13th, ..., 21st,
      22nd, 23rd, ..., 31st. */
  lemma GetOrdinalDayOfDate(ys: string, ms: string, ds: string)
    requires WellFormedDate(ys, ms, ds)
    ensures GetOrdinalDay(DateText(ys, ms, ds))
      == DecimalString(DecimalValue(ds)) + EnglishSuffix(DecimalValue(ds))
  {
    ParseLocalDateOfDigits(ys, ms, ds);
    OrdinalSuffixEnglish(DecimalValue(ds));
  }

  // --------------------------------------------------- shouldShowMonthRow

  /** `a !== b` on JavaScript numbers: NaN differs from everything. */
  predicate NumDiffers(a: Num, b: Num)
  {
    a.NaN? || b.NaN? || a.value != b.value
  }

  /** The month read from `current` is not the month read from `previous`. */
  predicate MonthChanges(current: string, previous: string)
  {
    NumDiffers(GetMonth(ParseLocalDate(current)), GetMonth(ParseLocalDate(previous)))
  }

  /** `shouldShowMonthRow(index)`: always for the first row; otherwise only
      when both this row and the previous one exist with non-empty dates,
      and their months (not years) differ. */
  predicate ShouldShowMonthRow(temperatures: seq<DailyTemperatures.DailyTemperature>, index: int)
  {
    if index == 0 then true
    else if !(0 < index < |temperatures|) then false
    else
      var current := temperatures[index].date;
      var previous := temperatures[index - 1].date;
      if current == "" || previous == "" then false
      else MonthChanges(current, previous)
  }

  /** Two well-formed dates differ in month exactly when their month
      numbers differ, whatever the years. */
  lemma MonthChangesOfDates(ys: string, ms: string, ds: string, ys': string, ms': string, ds': string)
    requires WellFormedDate(ys, ms, ds) && WellFormedDate(ys', ms', ds')
    ensures MonthChanges(DateText(ys, ms, ds), DateText(ys', ms', ds')) <==> DecimalValue(ms) != DecimalValue(ms')
  {
    ParseLocalDateOfDigits(ys, ms, ds);
    ParseLocalDateOfDigits(ys', ms', ds');
  }

  /** Between two well-formed dates a header is shown exactly when the month
      numbers differ, whatever the years. */
  lemma ShouldShowMonthRowOfDates(temperatures: seq<DailyTemperatures.DailyTemperature>, index: int,
                                  ys: string, ms: string, ds: string, ys': string, ms': string, ds': string)
    requires 0 < index < |temperatures|
    requires WellFormedDate(ys, ms, ds) && WellFormedDate(ys', ms', ds')
    requires temperatures[index].date == DateText(ys, ms, ds)
    requires temperatures[index - 1].date == DateText(ys', ms', ds')
    ensures ShouldShowMonthRow(temperatures, index) <==> DecimalValue(ms) != DecimalValue(ms')
  {
    MonthChangesOfDates(ys, ms, ds, ys', ms', ds');
  }

  // ----------------------------------------------------------- isRowKnitted

  /** `isRowKnitted(date)`: never without a (non-empty) progress date,
      otherwise exactly the dates at or before it as text. */
  predicate IsRowKnitted(lastKnitted: Option<string>, date: string)
  {
    match lastKnitted
    case None => false
    case Some(p) => p != "" && Lex.LessEq(date, p)
  }

  /** Knitted rows are closed downward: a date before a knitted one is knitted. */
  lemma KnittedDownwardClosed(lastKnitted: Option<string>, d1: string, d2: string)
    requires IsRowKnitted(lastKnitted, d2) && Lex.LessEq(d1, d2)
    ensures IsRowKnitted(lastKnitted, d1)
  {
    Lex.LessEqTransitive(d1, d2, lastKnitted.value);
  }

  /** A date after the progress date is not knitted. */
  lemma LaterNotKnitted(lastKnitted: Option<string>, date: string)
    requires lastKnitted.Some? && Lex.Less(lastKnitted.value, date)
    ensures !IsRowKnitted(lastKnitted, date)
  {
    Lex.LessIrreflexive(date);
    if Lex.Less(date, lastKnitted.value) {
      Lex.LessAsymmetric(date, lastKnitted.value);
    }
  }

  // ---------------------------------------------------------- row click

  /** The new progress date when a row is clicked: clearing it when the
      clicked row is the marked one, else marking the clicked row. */
  function Toggle(lastKnitted: Option<string>, date: string): (r: Option<string>)
    ensures r.None? <==> lastKnitted == Some(date)
    ensures r.Some? ==> r.value == date
  {
    if lastKnitted == Some(date) then None else Some(date)
  }

  /** After clicking a non-empty unmarked row, the knitted rows are exactly
      that row and the ones before it; after clicking the marked row none are. */
  lemma ToggleKnits(lastKnitted: Option<string>, date: string, other: string)
    requires date != ""
    ensures lastKnitted != Some(date) ==> (IsRowKnitted(Toggle(lastKnitted, date), other) <==> Lex.LessEq(other, date))
    ensures lastKnitted == Some(date) ==> !IsRowKnitted(Toggle(lastKnitted, date), other)
  {
  }
}
