/** Clock texts: the planner's parser and printer (transitTimetable.ts) and the two
    back-end formatters (sync_to_oracle.py and services/transit.py). */
module Clock {
  import opened Wrappers

  const MINUTES_PER_DAY := 1440

  // ---------- Decimal digits ----------

  predicate IsDigit(c: char) {
    '0' <= c <= '9'
  }

  function Digit(d: nat): char
    requires d < 10
  {
    ('0' as int + d) as char
  }

  function DigitValue(c: char): nat
    requires IsDigit(c)
  {
    c as int - '0' as int
  }

  function Decimal(n: nat): string {
    if n < 10 then [Digit(n)] else Decimal(n / 10) + [Digit(n % 10)]
  }

  /** Python's `{n:02d}` and JavaScript's `String(n).padStart(2, "0")`, on non-negative n. */
  function Pad2(n: nat): string {
    if n < 10 then "0" + Decimal(n) else Decimal(n)
  }

  predicate AllDigits(s: string) {
    forall i :: 0 <= i < |s| ==> IsDigit(s[i])
  }

  function DigitsValue(s: string): nat
    requires AllDigits(s)
  {
    ValueFrom(0, s)
  }

  function ValueFrom(high: nat, s: string): nat
    requires AllDigits(s)
    decreases |s|
  {
    if s == "" then high else ValueFrom(10 * high + DigitValue(s[0]), s[1..])
  }

  lemma {:induction false} ValueFromConcat(high: nat, s: string, c: char)
    requires AllDigits(s) && IsDigit(c)
    ensures ValueFrom(high, s + [c]) == 10 * ValueFrom(high, s) + DigitValue(c)
    decreases |s|
  {
    if s == "" {
      assert s + [c] == [c] && [c][1..] == "";
    } else {
      assert (s + [c])[1..] == s[1..] + [c];
      ValueFromConcat(10 * high + DigitValue(s[0]), s[1..], c);
    }
  }

  lemma {:induction false} DecimalValue(n: nat)
    ensures Decimal(n) != "" && AllDigits(Decimal(n)) && DigitsValue(Decimal(n)) == n
  {
    if n < 10 {
      assert Decimal(n)[1..] == "" && DigitValue(Digit(n)) == n;
      assert ValueFrom(0, Decimal(n)) == ValueFrom(n, "");
    } else {
      DecimalValue(n / 10);
      ValueFromConcat(0, Decimal(n / 10), Digit(n % 10));
    }
  }

  lemma Pad2Value(n: nat)
    ensures AllDigits(Pad2(n)) && DigitsValue(Pad2(n)) == n
  {
    DecimalValue(n);
    if n < 10 {
      assert Pad2(n)[1..] == Decimal(n);
    }
  }

  lemma Pad2Digits(n: nat)
    requires n < 100
    ensures Pad2(n) == [Digit(n / 10), Digit(n % 10)]
  {
    if n >= 10 {
      assert Decimal(n / 10) == [Digit(n / 10)];
    }
  }

  lemma DecimalLength(n: nat)
    ensures n < 10 ==> |Decimal(n)| == 1
    ensures 10 <= n < 100 ==> |Decimal(n)| == 2
    ensures 100 <= n < 1000 ==> |Decimal(n)| == 3
    ensures 1000 <= n ==> |Decimal(n)| >= 4
  {
    if n >= 1000 {
      DecimalLength(n / 10);
    }
  }

  // ---------- Clocks of the route planner ----------

  /** JavaScript's `%`: the remainder takes the sign of the dividend. */
  function JsRemainder(a: int, b: nat): int
    requires b > 0
  {
    if a >= 0 then a % b else -((-a) % b)
  }

  function FormatClock(totalMinutes: int): string {
    var normalized := JsRemainder(JsRemainder(totalMinutes, MINUTES_PER_DAY) + MINUTES_PER_DAY, MINUTES_PER_DAY);
    Pad2(normalized / 60) + ":" + Pad2(normalized % 60)
  }

  function LeadingDigits(s: string): (k: nat)
    ensures k <= |s| && AllDigits(s[..k])
    ensures k < |s| ==> !IsDigit(s[k])
  {
    if s == "" || !IsDigit(s[0]) then 0 else
      var k := LeadingDigits(s[1..]) + 1;
      assert s[..k] == [s[0]] + s[1..][..k - 1];
      k
  }

  /** Two digits naming a minute or a second: `[0-5]\d`. */
  predicate IsSixty(s: string) {
    |s| == 2 && '0' <= s[0] <= '5' && IsDigit(s[1])
  }

  /** What may follow the minutes: nothing, or a colon and the seconds. */
  predicate IsTail(s: string) {
    s == "" || (|s| == 3 && s[0] == ':' && IsSixty(s[1..]))
  }

  /** The hours and minutes of `\d{1,3}:[0-5]\d(:[0-5]\d)?`; the seconds are read and dropped. */
  function MatchClock(body: string): Option<(nat, nat)> {
    var k := LeadingDigits(body);
    if 1 <= k <= 3 && k + 3 <= |body| && body[k] == ':' && IsSixty(body[k + 1..k + 3]) && IsTail(body[k + 3..])
    then Some((DigitsValue(body[..k]), DigitsValue(body[k + 1..k + 3])))
    else None
  }

  function ParseClock(value: Option<string>): Option<int> {
    if value.None? || value.value == "" then None else
      var negative := value.value[0] == '-';
      match MatchClock(if negative then value.value[1..] else value.value)
      case None => None
      case Some((hours, minutes)) =>
        var sign := if negative then -1 else 1;
        Some(sign * (hours * 60) + minutes)
  }

  lemma {:induction false} LeadingDigitsStop(digits: string, rest: string)
    requires AllDigits(digits) && (rest == "" || !IsDigit(rest[0]))
    ensures LeadingDigits(digits + rest) == |digits|
  {
    if digits == "" {
      assert digits + rest == rest;
    } else {
      assert (digits + rest)[1..] == digits[1..] + rest;
      LeadingDigitsStop(digits[1..], rest);
    }
  }

  lemma Pad2Sixty(n: nat)
    requires n < 60
    ensures IsSixty(Pad2(n)) && DigitsValue(Pad2(n)) == n
  {
    Pad2Value(n);
    Pad2Digits(n);
  }

  lemma LeadingDigitsEnd(text: string, k: nat)
    requires k < |text| && AllDigits(text[..k]) && !IsDigit(text[k])
    ensures LeadingDigits(text) == k
  {
    assert text == text[..k] + text[k..];
    LeadingDigitsStop(text[..k], text[k..]);
  }

  lemma ParseSlices(text: string, k: nat)
    requires 1 <= k && k + 3 <= |text| && AllDigits(text[..k]) && text[k] == ':'
    requires IsSixty(text[k + 1..k + 3]) && IsTail(text[k + 3..])
    ensures ParseClock(Some(text))
         == if k <= 3 then Some(DigitsValue(text[..k]) * 60 + DigitsValue(text[k + 1..k + 3])) else None
  {
    LeadingDigitsEnd(text, k);
    assert IsDigit(text[..k][0]);
  }

  lemma ThreeSlices(a: string, x: string, b: string, y: string)
    requires |x| == 1
    ensures var s, k := a + x + b + y, |a|;
            s[..k] == a && s[k] == x[0] && s[k + 1..k + 1 + |b|] == b && s[k + 1 + |b|..] == y
  {
  }

  /** A text hours:MM, with or without :SS, parses to its minute count exactly when the hours have
      at most three digits. */
  lemma ParseShape(hours: string, mm: string, tail: string)
    requires AllDigits(hours) && hours != "" && IsSixty(mm) && IsTail(tail)
    ensures ParseClock(Some(hours + ":" + mm + tail))
         == if |hours| <= 3 then Some(DigitsValue(hours) * 60 + DigitsValue(mm)) else None
  {
    ThreeSlices(hours, ":", mm, tail);
    ParseSlices(hours + ":" + mm + tail, |hours|);
  }

  /** A clock text: an optional sign, one to three digits of hours, two of minutes, and perhaps seconds. */
  ghost predicate IsClockText(text: string, negative: bool, hours: string, mm: string, tail: string) {
    && text == (if negative then "-" else "") + (hours + ":" + mm + tail)
    && 1 <= |hours| <= 3 && (forall i :: 0 <= i < |hours| ==> '0' <= hours[i] <= '9')
    && |mm| == 2 && '0' <= mm[0] <= '5' && '0' <= mm[1] <= '9'
    && (tail == "" || (|tail| == 3 && tail[0] == ':' && '0' <= tail[1] <= '5' && '0' <= tail[2] <= '9'))
  }

  /** What the three parts are in the parser's terms. */
  lemma ClockTextParts(text: string, negative: bool, hours: string, mm: string, tail: string)
    ensures IsClockText(text, negative, hours, mm, tail)
            <==> && text == (if negative then "-" else "") + (hours + ":" + mm + tail)
                 && AllDigits(hours) && 1 <= |hours| <= 3 && IsSixty(mm) && IsTail(tail)
    ensures IsClockText(text, negative, hours, mm, tail) ==> AllDigits(mm)
  {
  }

  lemma MatchBody(hours: string, mm: string, tail: string)
    requires AllDigits(hours) && 1 <= |hours| <= 3 && IsSixty(mm) && IsTail(tail)
    ensures MatchClock(hours + ":" + mm + tail) == Some((DigitsValue(hours), DigitsValue(mm)))
    ensures IsDigit((hours + ":" + mm + tail)[0])
  {
    ThreeSlices(hours, ":", mm, tail);
    LeadingDigitsEnd(hours + ":" + mm + tail, |hours|);
    assert (hours + ":" + mm + tail)[0] == hours[0];
  }

  lemma MatchParts(body: string) returns (hours: string, mm: string, tail: string)
    requires MatchClock(body).Some?
    ensures body == hours + ":" + mm + tail
    ensures AllDigits(hours) && 1 <= |hours| <= 3 && IsSixty(mm) && IsTail(tail)
  {
    var k := LeadingDigits(body);
    hours, mm, tail := body[..k], body[k + 1..k + 3], body[k + 3..];
    hide MatchClock, IsSixty, IsTail, AllDigits;
    assert body == hours + ":" + mm + tail;
  }

  lemma SignIsDropped(body: string)
    ensures ("-" + body)[0] == '-' && ("-" + body)[1..] == body
  {
  }

  lemma ParseSigned(text: string, negative: bool, hours: string, mm: string, tail: string)
    requires IsClockText(text, negative, hours, mm, tail)
    ensures AllDigits(hours) && AllDigits(mm)
    ensures ParseClock(Some(text))
         == Some((if negative then -1 else 1) * (DigitsValue(hours) * 60) + DigitsValue(mm))
  {
    var body := hours + ":" + mm + tail;
    hide MatchClock, DigitsValue, IsSixty, IsTail, AllDigits, IsClockText;
    ClockTextParts(text, negative, hours, mm, tail);
    MatchBody(hours, mm, tail);
    if negative {
      SignIsDropped(body);
    } else {
      assert text == body && body[0] != '-';
    }
  }

  /** Exactly the clock texts parse, each to the minute count that it names; of the sign only the hours take notice. */
  lemma ParseClockExactly(text: string)
    ensures ParseClock(Some(text)).Some?
       <==> exists negative, hours, mm, tail :: IsClockText(text, negative, hours, mm, tail)
    ensures forall negative, hours, mm, tail :: IsClockText(text, negative, hours, mm, tail) ==>
              AllDigits(hours) && AllDigits(mm)
              && ParseClock(Some(text))
              == Some((if negative then -1 else 1) * (DigitsValue(hours) * 60) + DigitsValue(mm))
  {
    forall negative, hours, mm, tail | IsClockText(text, negative, hours, mm, tail)
      ensures AllDigits(hours) && AllDigits(mm)
      ensures ParseClock(Some(text))
           == Some((if negative then -1 else 1) * (DigitsValue(hours) * 60) + DigitsValue(mm))
    {
      ParseSigned(text, negative, hours, mm, tail);
    }
    if ParseClock(Some(text)).Some? {
      var negative := text[0] == '-';
      hide MatchClock, DigitsValue, IsSixty, IsTail, AllDigits, IsClockText;
      var hours, mm, tail := MatchParts(if negative then text[1..] else text);
      assert text == (if negative then "-" else "") + (hours + ":" + mm + tail);
      ClockTextParts(text, negative, hours, mm, tail);
    }
  }

  /** Printing a minute count and parsing it back gives its place in the day, for negative counts too. */
  lemma ParseFormatClock(m: int)
    ensures ParseClock(Some(FormatClock(m))) == Some(m % 1440)
  {
    var n := JsRemainder(JsRemainder(m, MINUTES_PER_DAY) + MINUTES_PER_DAY, MINUTES_PER_DAY);
    assert n == m % MINUTES_PER_DAY;
    hide Pad2, ParseClock, JsRemainder;
    Pad2Value(n / 60);
    DecimalLength(n / 60);
    Pad2Sixty(n % 60);
    ParseShape(Pad2(n / 60), Pad2(n % 60), "");
    assert FormatClock(m) == Pad2(n / 60) + ":" + Pad2(n % 60) + "";
  }

  /** HH:MM. */
  predicate ShowsClock(text: string, hours: nat, minutes: nat) {
    |text| == 5 && text[2] == ':' && AreTwoDigits(text[..2], hours) && AreTwoDigits(text[3..], minutes)
  }

  /** A clock text has two digits of hours and two of minutes, which name the place in the day. */
  lemma FormatClockExactly(m: int)
    ensures exists hours: nat, minutes: nat ::
              ShowsClock(FormatClock(m), hours, minutes)
              && hours < 24 && minutes < 60 && 60 * hours + minutes == m % 1440
  {
    var n := m % MINUTES_PER_DAY;
    var hours, minutes := n / 60, n % 60;
    FormatClockParts(m);
    hide FormatClock, AreTwoDigits, Pad2, ShowsClock;
    Pad2AreTwoDigits(hours);
    Pad2AreTwoDigits(minutes);
    ClockShows(Pad2(hours), Pad2(minutes), hours, minutes);
  }

  lemma FormatClockParts(m: int)
    ensures FormatClock(m) == Pad2(m % MINUTES_PER_DAY / 60) + ":" + Pad2(m % MINUTES_PER_DAY % 60)
  {
    var n := JsRemainder(JsRemainder(m, MINUTES_PER_DAY) + MINUTES_PER_DAY, MINUTES_PER_DAY);
    assert n == m % MINUTES_PER_DAY;
    hide Pad2, JsRemainder;
  }

  lemma ClockShows(a: string, b: string, m: nat, n: nat)
    requires AreTwoDigits(a, m) && AreTwoDigits(b, n)
    ensures ShowsClock(a + ":" + b, m, n)
  {
    var text := a + ":" + b;
    assert text[..2] == a && text[3..] == b;
  }

  // ---------- The two back-end formatters ----------

  /** What the MySQL driver returns for a TIME column. */
  datatype PyTime = TimeOfDay(hour: nat, minute: nat, second: nat) | TimeDelta(microseconds: int) {
    ghost predicate Valid() {
      TimeOfDay? ==> hour < 24 && minute < 60 && second < 60
    }
  }

  /** Python's `int(value.total_seconds())`, which truncates toward zero. */
  function WholeSeconds(value: PyTime): int {
    match value
    case TimeOfDay(h, m, s) => h * 3600 + m * 60 + s
    case TimeDelta(us) => if us >= 0 then us / 1_000_000 else -((-us) / 1_000_000)
  }

  /** Python's `{n:02d}`: the width of two counts a minus sign. */
  function PyPad2(n: int): string {
    if n >= 0 then Pad2(n) else "-" + Decimal(-n)
  }

  /** The `MM:SS` part that both formatters print after the hours. */
  function MinutesSeconds(remainder: nat): string {
    Pad2(remainder / 60) + ":" + Pad2(remainder % 60)
  }

  /** `to_time_string` of the synchronisation script: divmod floors, also below zero. */
  function ToTimeString(value: PyTime): string {
    var total := WholeSeconds(value);
    PyPad2(total / 3600) + ":" + MinutesSeconds(total % 3600)
  }

  /** `_format_timetable_time` of the API: a sign, then the absolute value. */
  function FormatTimetableTime(value: PyTime): string {
    match value
    case TimeOfDay(h, m, s) => Pad2(h) + ":" + (Pad2(m) + ":" + Pad2(s))
    case TimeDelta(_) =>
      var total := WholeSeconds(value);
      var absolute := if total < 0 then -total else total;
      (if total < 0 then "-" else "") + Pad2(absolute / 3600) + ":" + MinutesSeconds(absolute % 3600)
  }

  /** The common text of a non-negative number of seconds. */
  function SecondsText(total: nat): string {
    Pad2(total / 3600) + ":" + MinutesSeconds(total % 3600)
  }

  lemma BothPrintSecondsText(value: PyTime)
    requires value.Valid() && WholeSeconds(value) >= 0
    ensures ToTimeString(value) == SecondsText(WholeSeconds(value)) == FormatTimetableTime(value)
  {
    match value
    case TimeOfDay(h, m, s) =>
      var total := h * 3600 + m * 60 + s;
      assert total / 3600 == h && total % 3600 == m * 60 + s;
      assert (m * 60 + s) / 60 == m && (m * 60 + s) % 60 == s;
    case TimeDelta(_) =>
      assert "" + Pad2(WholeSeconds(value) / 3600) == Pad2(WholeSeconds(value) / 3600);
  }

  // ---------- What the stored text says ----------

  /** The time in whole seconds, cut off toward zero. */
  predicate HasSeconds(value: PyTime, total: int) {
    match value
    case TimeOfDay(h, m, s) => total == 3600 * h + 60 * m + s
    case TimeDelta(us) =>
      if us >= 0 then 0 <= us - 1_000_000 * total < 1_000_000 else 0 <= 1_000_000 * total - us < 1_000_000
  }

  predicate AreTwoDigits(s: string, n: nat) {
    |s| == 2 && '0' <= s[0] <= '9' && '0' <= s[1] <= '9'
    && n == 10 * (s[0] as int - '0' as int) + (s[1] as int - '0' as int)
  }

  /** At least two characters: digits, padded by a zero only up to two, or a minus sign and digits without a leading
      zero. */
  predicate AreHours(s: string, n: int) {
    |s| >= 2
    && if s[0] == '-' then s[1] != '0' && AllDigits(s[1..]) && n + DigitsValue(s[1..]) == 0
       else (|s| > 2 ==> s[0] != '0') && AllDigits(s) && n == DigitsValue(s)
  }

  /** The text is HH:MM:SS of that many seconds; below zero only the hours carry the sign. */
  ghost predicate IsTimeText(text: string, total: int) {
    exists h: int, m: nat, s: nat :: ShowsParts(text, h, m, s) && total == 3600 * h + 60 * m + s
  }

  predicate ShowsParts(text: string, h: int, m: nat, s: nat) {
    && m < 60 && s < 60
    && |text| >= 8 && text[|text| - 6] == ':' && text[|text| - 3] == ':'
    && AreHours(text[..|text| - 6], h) && AreTwoDigits(text[|text| - 5..|text| - 3], m)
    && AreTwoDigits(text[|text| - 2..], s)
  }

  lemma Pad2AreTwoDigits(n: nat)
    requires n < 100
    ensures AreTwoDigits(Pad2(n), n)
  {
    Pad2Digits(n);
  }

  lemma {:induction false} DecimalLeads(n: nat)
    requires n > 0
    ensures Decimal(n)[0] != '0'
  {
    if n >= 10 {
      DecimalLeads(n / 10);
      DecimalValue(n / 10);
      assert Decimal(n)[0] == Decimal(n / 10)[0];
    }
  }

  lemma PyPad2AreHours(n: int)
    ensures AreHours(PyPad2(n), n)
  {
    if n >= 0 {
      Pad2Value(n);
      DecimalLength(n);
      if n >= 10 {
        DecimalLeads(n);
      } else {
        assert Pad2(n) == "0" + Decimal(n);
      }
    } else {
      DecimalLeads(-n);
      DecimalValue(-n);
      assert PyPad2(n)[1..] == Decimal(-n);
    }
  }

  lemma WholeSecondsAre(value: PyTime)
    ensures HasSeconds(value, WholeSeconds(value))
  {
  }

  lemma OneWholeSeconds(value: PyTime, total: int, other: int)
    requires HasSeconds(value, total) && HasSeconds(value, other)
    ensures total == other
  {
  }

  lemma PartsShow(hours: string, mm: string, ss: string, h: int, m: nat, s: nat)
    requires AreHours(hours, h) && AreTwoDigits(mm, m) && AreTwoDigits(ss, s) && m < 60 && s < 60
    ensures ShowsParts(hours + ":" + (mm + ":" + ss), h, m, s)
  {
    var text := hours + ":" + (mm + ":" + ss);
    assert text[..|text| - 6] == hours && text[|text| - 5..|text| - 3] == mm && text[|text| - 2..] == ss;
  }

  /** The synchronisation stores a time as the text of its whole seconds. */
  lemma ToTimeStringExactly(value: PyTime, total: int)
    requires HasSeconds(value, total)
    ensures IsTimeText(ToTimeString(value), total)
  {
    WholeSecondsAre(value);
    OneWholeSeconds(value, total, WholeSeconds(value));
    var h, m, s := total / 3600, total % 3600 / 60, total % 3600 % 60;
    hide HasSeconds, WholeSeconds, PyPad2, Pad2, AreHours, AreTwoDigits, ShowsParts;
    assert total == 3600 * h + 60 * m + s;
    PyPad2AreHours(h);
    Pad2AreTwoDigits(m);
    Pad2AreTwoDigits(s);
    PartsShow(PyPad2(h), Pad2(m), Pad2(s), h, m, s);
  }

  /** The API answers a duration below zero as a minus sign and the text of its absolute value. */
  lemma FormatTimetableTimeExactly(value: PyTime, total: int)
    requires value.Valid() && HasSeconds(value, total)
    ensures var text := FormatTimetableTime(value);
      if total >= 0 then IsTimeText(text, total)
      else |text| > 0 && text[0] == '-' && IsTimeText(text[1..], 0 - total)
  {
    WholeSecondsAre(value);
    OneWholeSeconds(value, total, WholeSeconds(value));
    if total >= 0 {
      BothPrintSecondsText(value);
      ToTimeStringExactly(value, total);
    } else {
      hide *;
      NegativeIsTimeText(value, total, 0 - total);
    }
  }

  lemma NegativeIsTimeText(value: PyTime, total: int, t: nat)
    requires value.TimeDelta? && WholeSeconds(value) == total < 0 && total + t == 0
    ensures var text := FormatTimetableTime(value); |text| > 0 && text[0] == '-' && IsTimeText(text[1..], t)
  {
    hide *;
    var down, y := ServerBelowZero(value, total, t);
    SecondsTextIs(t);
    MinusInFront(Pad2(t / 3600), y);
    SignIsDropped(SecondsText(t));
    SecondsTextShows(t);
  }

  lemma PrintsSecondsText(value: PyTime, total: nat)
    requires WholeSeconds(value) == total
    ensures ToTimeString(value) == SecondsText(total)
  {
    hide WholeSeconds, Pad2, MinutesSeconds;
  }

  lemma SecondsTextIs(t: nat)
    ensures SecondsText(t) == Pad2(t / 3600) + ":" + MinutesSeconds(t % 3600)
  {
    hide Pad2, MinutesSeconds;
  }

  lemma MinusInFront(hours: string, rest: string)
    ensures "-" + hours + ":" + rest == "-" + (hours + ":" + rest)
  {
  }

  lemma SecondsTextShows(t: nat)
    ensures IsTimeText(SecondsText(t), t)
  {
    var h, m, s := t / 3600, t % 3600 / 60, t % 3600 % 60;
    ClockParts(t);
    assert Pad2(h) == PyPad2(h);
    hide SecondsText, PyPad2, Pad2, AreHours, AreTwoDigits, ShowsParts;
    PyPad2AreHours(h);
    Pad2AreTwoDigits(m);
    Pad2AreTwoDigits(s);
    PartsShow(Pad2(h), Pad2(m), Pad2(s), h, m, s);
  }

  function FirstColon(s: string): nat {
    if s == "" || s[0] == ':' then 0 else 1 + FirstColon(s[1..])
  }

  lemma {:induction false} FirstColonAt(a: string, x: string)
    requires ':' !in a
    ensures FirstColon(a + ":" + x) == |a|
  {
    if a != "" {
      assert (a + ":" + x)[1..] == a[1..] + ":" + x;
      FirstColonAt(a[1..], x);
    }
  }

  lemma SplitAtColon(a: string, x: string, b: string, y: string)
    requires a + ":" + x == b + ":" + y
    requires ':' !in a && ':' !in b
    ensures a == b && x == y
  {
    FirstColonAt(a, x);
    FirstColonAt(b, y);
    var s, t := a + ":" + x, b + ":" + y;
    assert a == s[..|a|] && b == t[..|b|];
    assert x == s[|a| + 1..] && y == t[|b| + 1..];
  }

  lemma SameTexts(a: string, x: string, b: string, y: string)
    requires ':' !in a && ':' !in b
    ensures a + ":" + x == b + ":" + y <==> a == b && x == y
  {
    if a + ":" + x == b + ":" + y {
      SplitAtColon(a, x, b, y);
    }
  }

  lemma NoColon(n: nat)
    ensures ':' !in Pad2(n) && ':' !in Decimal(n)
  {
    Pad2Value(n);
    DecimalValue(n);
  }

  /** Below zero the script prints the hours rounded up, the API prints them rounded down. */
  lemma HoursTextsBelowZero(t: nat)
    requires t > 0
    ensures "-" + Decimal((t + 3599) / 3600) == "-" + Pad2(t / 3600) <==> t % 3600 == 0 && t >= 36000
  {
    var ceiling, floor := (t + 3599) / 3600, t / 3600;
    var left, right := "-" + Decimal(ceiling), "-" + Pad2(floor);
    assert left[1..] == Decimal(ceiling) && right[1..] == Pad2(floor);
    DecimalLength(floor);
    DecimalValue(ceiling);
    Pad2Value(floor);
  }

  lemma DivideBelowZero(total: int, t: nat)
    requires t > 0 && total + t == 0
    ensures 0 - total / 3600 == (t + 3599) / 3600
    ensures total % 3600 == 0 <==> t % 3600 == 0
  {
  }

  lemma PrintedBelowZero(value: PyTime, total: int, t: nat) returns (up: string, x: string, down: string, y: string)
    requires value.TimeDelta? && WholeSeconds(value) == total < 0 && total + t == 0
    ensures ToTimeString(value) == up + ":" + x && FormatTimetableTime(value) == down + ":" + y
    ensures up == "-" + Decimal((t + 3599) / 3600) && down == "-" + Pad2(t / 3600)
    ensures total % 3600 == 0 ==> x == y
  {
    up, x := ScriptBelowZero(value, total, t);
    down, y := ServerBelowZero(value, total, t);
    DivideBelowZero(total, t);
    hide *;
  }

  lemma ScriptBelowZero(value: PyTime, total: int, t: nat) returns (up: string, x: string)
    requires WholeSeconds(value) == total < 0 && total + t == 0
    ensures ToTimeString(value) == up + ":" + x
    ensures up == "-" + Decimal((t + 3599) / 3600) && x == MinutesSeconds(total % 3600)
  {
    DivideBelowZero(total, t);
    hide Decimal, Pad2, MinutesSeconds, WholeSeconds;
    up, x := "-" + Decimal((t + 3599) / 3600), MinutesSeconds(total % 3600);
  }

  lemma ServerBelowZero(value: PyTime, total: int, t: nat) returns (down: string, y: string)
    requires value.TimeDelta? && WholeSeconds(value) == total < 0 && total + t == 0
    ensures FormatTimetableTime(value) == down + ":" + y
    ensures down == "-" + Pad2(t / 3600) && y == MinutesSeconds(t % 3600)
  {
    hide Decimal, Pad2, MinutesSeconds, WholeSeconds;
    down, y := "-" + Pad2(t / 3600), MinutesSeconds(t % 3600);
  }

  lemma HoursBelowZero(t: nat) returns (up: string, down: string)
    requires t > 0
    ensures up == "-" + Decimal((t + 3599) / 3600) && down == "-" + Pad2(t / 3600)
    ensures ':' !in up && ':' !in down
    ensures up == down <==> t % 3600 == 0 && t >= 36000
  {
    up, down := "-" + Decimal((t + 3599) / 3600), "-" + Pad2(t / 3600);
    NoColon((t + 3599) / 3600);
    NoColon(t / 3600);
    HoursTextsBelowZero(t);
  }

  lemma DisagreeBelowZero(value: PyTime, total: int, t: nat)
    requires value.TimeDelta? && WholeSeconds(value) == total < 0 && total + t == 0
    ensures ToTimeString(value) == FormatTimetableTime(value) <==> total % 3600 == 0 && total <= -36000
  {
    DivideBelowZero(total, t);
    hide *;
    var up, x, down, y := PrintedBelowZero(value, total, t);
    var up', down' := HoursBelowZero(t);
    SameTexts(up, x, down, y);
  }

  /** The two formatters agree on every non-negative time, and below zero only on whole hours
      from ten hours on: elsewhere one rounds or pads where the other does not. */
  lemma FormattersAgreeExactly(value: PyTime)
    requires value.Valid()
    ensures ToTimeString(value) == FormatTimetableTime(value)
       <==> WholeSeconds(value) >= 0 || (WholeSeconds(value) % 3600 == 0 && WholeSeconds(value) <= -36000)
  {
    var total := WholeSeconds(value);
    if total >= 0 {
      BothPrintSecondsText(value);
    } else {
      DisagreeBelowZero(value, total, 0 - total);
    }
  }

  lemma ParseThreeTexts(hh: string, mm: string, ss: string)
    requires AllDigits(hh) && hh != "" && IsSixty(mm) && IsSixty(ss)
    ensures ParseClock(Some(hh + ":" + (mm + ":" + ss)))
         == if |hh| <= 3 then Some(DigitsValue(hh) * 60 + DigitsValue(mm)) else None
  {
    var tail := ":" + ss;
    assert tail[1..] == ss;
    ParseShape(hh, mm, tail);
    assert hh + ":" + (mm + ":" + ss) == hh + ":" + mm + tail;
  }

  lemma ParseThreeParts(h: nat, m: nat, s: nat)
    requires m < 60 && s < 60
    ensures ParseClock(Some(Pad2(h) + ":" + (Pad2(m) + ":" + Pad2(s)))) == if h < 1000 then Some(h * 60 + m) else None
  {
    Pad2Value(h);
    DecimalLength(h);
    Pad2Sixty(m);
    Pad2Sixty(s);
    ParseThreeTexts(Pad2(h), Pad2(m), Pad2(s));
  }

  /** The planner reads a printed time back to its minute count exactly below a thousand hours. */
  lemma ParseSecondsText(total: nat)
    ensures ParseClock(Some(SecondsText(total))) == if total < 3_600_000 then Some(total / 60) else None
  {
    ClockParts(total);
    ParseThreeParts(total / 3600, total % 3600 / 60, total % 3600 % 60);
  }

  lemma Pad2Injective(m: nat, n: nat)
    requires Pad2(m) == Pad2(n)
    ensures m == n
  {
    Pad2Value(m);
    Pad2Value(n);
  }

  lemma ClockTextInjective(h: nat, m: nat, s: nat, h': nat, m': nat, s': nat)
    requires Pad2(h) + ":" + (Pad2(m) + ":" + Pad2(s)) == Pad2(h') + ":" + (Pad2(m') + ":" + Pad2(s'))
    ensures h == h' && m == m' && s == s'
  {
    NoColon(h);
    NoColon(h');
    SplitAtColon(Pad2(h), Pad2(m) + ":" + Pad2(s), Pad2(h'), Pad2(m') + ":" + Pad2(s'));
    NoColon(m);
    NoColon(m');
    SplitAtColon(Pad2(m), Pad2(s), Pad2(m'), Pad2(s'));
    Pad2Injective(h, h');
    Pad2Injective(m, m');
    Pad2Injective(s, s');
  }

  lemma ClockParts(s: nat)
    ensures s == 3600 * (s / 3600) + 60 * (s % 3600 / 60) + s % 3600 % 60
    ensures s / 60 == 60 * (s / 3600) + s % 3600 / 60
    ensures SecondsText(s) == Pad2(s / 3600) + ":" + (Pad2(s % 3600 / 60) + ":" + Pad2(s % 3600 % 60))
  {
  }

  /** No two numbers of seconds print alike. */
  lemma SecondsTextInjective(s: nat, t: nat)
    requires SecondsText(s) == SecondsText(t)
    ensures s == t
  {
    ClockParts(s);
    ClockParts(t);
    ClockTextInjective(s / 3600, s % 3600 / 60, s % 3600 % 60, t / 3600, t % 3600 / 60, t % 3600 % 60);
  }

  /** Times from zero on print alike exactly if they agree in their whole seconds. */
  lemma PrintsAlikeExactly(a: PyTime, b: PyTime)
    requires a.Valid() && b.Valid() && WholeSeconds(a) >= 0 && WholeSeconds(b) >= 0
    ensures ToTimeString(a) == ToTimeString(b) <==> WholeSeconds(a) == WholeSeconds(b)
  {
    BothPrintSecondsText(a);
    BothPrintSecondsText(b);
    if ToTimeString(a) == ToTimeString(b) {
      SecondsTextInjective(WholeSeconds(a), WholeSeconds(b));
    }
  }

  /** Order of texts, character by character: what VARCHAR2 comparison does on these. */
  predicate TextLess(a: string, b: string) {
    b != "" && (a == "" || a[0] < b[0] || (a[0] == b[0] && TextLess(a[1..], b[1..])))
  }

  lemma {:induction false} TextLessConcat(a: string, x: string, b: string, y: string)
    requires |a| == |b|
    ensures TextLess(a + x, b + y) <==> TextLess(a, b) || (a == b && TextLess(x, y))
  {
    if a == "" {
      assert a + x == x && b + y == y;
    } else {
      assert (a + x)[1..] == a[1..] + x && (b + y)[1..] == b[1..] + y;
      assert a == [a[0]] + a[1..] && b == [b[0]] + b[1..];
      TextLessConcat(a[1..], x, b[1..], y);
    }
  }

  lemma Pad2Order(m: nat, n: nat)
    requires m < 100 && n < 100
    ensures |Pad2(m)| == |Pad2(n)| == 2
    ensures TextLess(Pad2(m), Pad2(n)) <==> m < n
    ensures Pad2(m) == Pad2(n) <==> m == n
  {
    Pad2Digits(m);
    Pad2Digits(n);
    assert Pad2(m) == [Digit(m / 10)] + [Digit(m % 10)];
    assert Pad2(n) == [Digit(n / 10)] + [Digit(n % 10)];
    TextLessConcat([Digit(m / 10)], [Digit(m % 10)], [Digit(n / 10)], [Digit(n % 10)]);
  }

  lemma TextLessColon(a: string, x: string, b: string, y: string)
    requires |a| == |b|
    ensures TextLess(a + ":" + x, b + ":" + y) <==> TextLess(a, b) || (a == b && TextLess(x, y))
  {
    assert a + ":" + x == a + (":" + x) && b + ":" + y == b + (":" + y);
    TextLessConcat(a, ":" + x, b, ":" + y);
    TextLessConcat(":", x, ":", y);
  }

  lemma MinutesSecondsOrder(q: nat, r: nat)
    requires q < 3600 && r < 3600
    ensures TextLess(MinutesSeconds(q), MinutesSeconds(r)) <==> q < r
  {
    Pad2Order(q / 60, r / 60);
    Pad2Order(q % 60, r % 60);
    TextLessColon(Pad2(q / 60), Pad2(q % 60), Pad2(r / 60), Pad2(r % 60));
  }

  /** Below a hundred hours the stored texts sort like the times they name. */
  lemma TextOrderIsTimeOrder(s: nat, t: nat)
    requires s < 360_000 && t < 360_000
    ensures TextLess(SecondsText(s), SecondsText(t)) <==> s < t
  {
    Pad2Order(s / 3600, t / 3600);
    MinutesSecondsOrder(s % 3600, t % 3600);
    TextLessColon(Pad2(s / 3600), MinutesSeconds(s % 3600), Pad2(t / 3600), MinutesSeconds(t % 3600));
  }

  /** From a hundred hours on the orders part. */
  lemma TextOrderFailsAtHundredHours()
    ensures TextLess(SecondsText(360_000), SecondsText(356_400))
  {
    assert Decimal(100) == Decimal(10) + [Digit(0)] && Decimal(10) == Decimal(1) + [Digit(0)];
    assert Decimal(99) == Decimal(9) + [Digit(9)];
    assert SecondsText(360_000)[0] == '1' && SecondsText(356_400)[0] == '9';
  }

  /** All times below n sort by their texts exactly if n is at most a hundred hours. */
  lemma TextOrderExactly(n: nat)
    ensures (forall s: nat, t: nat :: s < n && t < n ==> (TextLess(SecondsText(s), SecondsText(t)) <==> s < t))
            <==> n <= 360_000
  {
    if n <= 360_000 {
      forall s: nat, t: nat | s < n && t < n
        ensures TextLess(SecondsText(s), SecondsText(t)) <==> s < t
      {
        TextOrderIsTimeOrder(s, t);
      }
    } else {
      TextOrderFailsAtHundredHours();
      hide TextLess, SecondsText;
      var s: nat, t: nat := 360_000, 356_400;
      assert TextLess(SecondsText(s), SecondsText(t)) && !(s < t);
    }
  }
}
