/**
 Instants in milliseconds and their text: the `YYYY-MM-DDTHH:MM:SS.mmmZ` the preparations write,
 and the two readers, one for the expiry of a signal and one for the timestamps of presence.
 */
module SignalTime {
  import opened Outcomes

  const MAX_MS := 253402300799999

  /** `signalMilliseconds`: from 1970 to the end of 9999. */
  predicate Milliseconds(ms: int) {
    0 <= ms <= MAX_MS
  }

  // ----- The calendar -----

  predicate Leap(year: int) {
    year % 4 == 0 && (year % 100 != 0 || year % 400 == 0)
  }

  function YearLength(year: int): nat {
    if Leap(year) then 366 else 365
  }

  function MonthLength(year: int, month: int): nat
    requires 1 <= month <= 12
  {
    if month == 2 then (if Leap(year) then 29 else 28)
    else if month in {4, 6, 9, 11} then 30
    else 31
  }

  /** How many multiples of `n` come before `year`, 0 included. */
  function MultiplesBefore(year: nat, n: nat): nat
    requires n > 0
  {
    (year + n - 1) / n
  }

  /** Days from the start of year 0 to the start of `year`. */
  function DaysBeforeYear(year: nat): int {
    365 * year + MultiplesBefore(year, 4) - MultiplesBefore(year, 100) + MultiplesBefore(year, 400)
  }

  lemma MultipleStep(year: nat, n: nat)
    requires n in {4, 100, 400}
    ensures MultiplesBefore(year + 1, n) == MultiplesBefore(year, n) + if year % n == 0 then 1 else 0
  {
    var q, r := year / n, year % n;
    if n == 4 {
      assert year == 4 * q + r;
    } else if n == 100 {
      assert year == 100 * q + r;
    } else {
      assert year == 400 * q + r;
    }
  }

  lemma Multiples(year: nat)
    ensures year % 400 == 0 ==> year % 100 == 0
    ensures year % 100 == 0 ==> year % 4 == 0
  {
    assert year % 400 == 0 ==> year == 100 * (4 * (year / 400));
    assert year % 100 == 0 ==> year == 4 * (25 * (year / 100));
  }

  lemma YearStep(year: nat)
    ensures DaysBeforeYear(year + 1) == DaysBeforeYear(year) + YearLength(year)
  {
    hide MultiplesBefore;
    MultipleStep(year, 4);
    MultipleStep(year, 100);
    MultipleStep(year, 400);
    Multiples(year);
  }

  function DaysBeforeMonth(year: int, month: int): nat
    requires 1 <= month <= 13
  {
    if month == 1 then 0 else DaysBeforeMonth(year, month - 1) + MonthLength(year, month - 1)
  }

  lemma MonthStep(year: int, month: int)
    requires 1 <= month <= 12
    ensures DaysBeforeMonth(year, month + 1) == DaysBeforeMonth(year, month) + MonthLength(year, month)
  {
  }

  lemma YearIsTwelveMonths(year: int)
    ensures DaysBeforeMonth(year, 13) == YearLength(year)
  {
    FirstHalf(year);
    MonthStep(year, 7);
    MonthStep(year, 8);
    MonthStep(year, 9);
    MonthStep(year, 10);
    MonthStep(year, 11);
    MonthStep(year, 12);
  }

  lemma FirstHalf(year: int)
    ensures DaysBeforeMonth(year, 7) == YearLength(year) - 184
  {
    MonthStep(year, 1);
    MonthStep(year, 2);
    MonthStep(year, 3);
    MonthStep(year, 4);
    MonthStep(year, 5);
    MonthStep(year, 6);
  }

  datatype Civil = Civil(year: int, month: int, day: int, hour: int, minute: int, second: int, milli: int)

  /** A date and time that exist, in the years the format can write. */
  predicate Exists(c: Civil) {
    && 1970 <= c.year <= 9999 && 1 <= c.month <= 12 && 1 <= c.day <= MonthLength(c.year, c.month)
    && 0 <= c.hour < 24 && 0 <= c.minute < 60 && 0 <= c.second < 60 && 0 <= c.milli < 1000
  }

  function DayNumber(c: Civil): nat
    requires Exists(c)
  {
    LaterYears(1970, c.year - 1970);
    DaysBeforeYear(c.year) - DaysBeforeYear(1970) + DaysBeforeMonth(c.year, c.month) + c.day - 1
  }

  function Instant(c: Civil): nat
    requires Exists(c)
  {
    (((DayNumber(c) * 24 + c.hour) * 60 + c.minute) * 60 + c.second) * 1000 + c.milli
  }

  /** The year that day `day`, counted from the start of `year`, falls in, and its place there. */
  function YearOf(year: nat, day: nat): (nat, nat)
    decreases day
  {
    if day < YearLength(year) then (year, day) else YearOf(year + 1, day - YearLength(year))
  }

  function MonthOf(year: nat, month: int, day: nat): (int, nat)
    requires 1 <= month <= 12
    decreases 12 - month
  {
    if month == 12 || day < MonthLength(year, month) then (month, day)
    else MonthOf(year, month + 1, day - MonthLength(year, month))
  }

  lemma {:induction false} YearOfIsRight(year: nat, day: nat)
    ensures var (y, d) := YearOf(year, day);
            y >= year && d < YearLength(y) && DaysBeforeYear(y) + d == DaysBeforeYear(year) + day
    decreases day
  {
    if day >= YearLength(year) {
      YearStep(year);
      YearOfIsRight(year + 1, day - YearLength(year));
    }
  }

  lemma {:induction false} MonthOfIsRight(year: nat, month: int, day: nat)
    requires 1 <= month <= 12 && DaysBeforeMonth(year, month) + day < YearLength(year)
    ensures var (m, d) := MonthOf(year, month, day);
            && month <= m <= 12 && 0 <= d < MonthLength(year, m)
            && DaysBeforeMonth(year, m) + d == DaysBeforeMonth(year, month) + day
    decreases 12 - month
  {
    YearIsTwelveMonths(year);
    if month < 12 && day >= MonthLength(year, month) {
      MonthOfIsRight(year, month + 1, day - MonthLength(year, month));
    }
  }

  /** The date and time of an instant. */
  function CivilOf(ms: nat): Civil {
    var (year, dayOfYear) := YearOf(1970, ms / 86400000);
    var (month, day) := MonthOf(year, 1, dayOfYear);
    Civil(year, month, day + 1, ms / 3600000 % 24, ms / 60000 % 60, ms / 1000 % 60, ms % 1000)
  }

  lemma {:induction false} LaterYears(year: nat, more: nat)
    ensures DaysBeforeYear(year + more) >= DaysBeforeYear(year) + 365 * more
  {
    if more > 0 {
      LaterYears(year, more - 1);
      YearStep(year + more - 1);
    }
  }

  lemma TimeOfDay(ms: nat)
    ensures ms == (((ms / 86400000 * 24 + ms / 3600000 % 24) * 60 + ms / 60000 % 60) * 60 + ms / 1000 % 60) * 1000
                  + ms % 1000
  {
    assert ms / 1000 / 60 == ms / 60000;
    assert ms / 60000 / 60 == ms / 3600000;
    assert ms / 3600000 / 24 == ms / 86400000;
  }

  lemma DateOfDay(day: nat)
    requires day <= 2932896
    ensures var (year, dayOfYear) := YearOf(1970, day);
            var (month, rest) := MonthOf(year, 1, dayOfYear);
            && 1970 <= year <= 9999 && 1 <= month <= 12 && 0 <= rest < MonthLength(year, month)
            && DaysBeforeYear(year) - DaysBeforeYear(1970) + DaysBeforeMonth(year, month) + rest == day
  {
    hide MonthOf, YearOf;
    var (year, dayOfYear) := YearOf(1970, day);
    YearOfIsRight(1970, day);
    LaterYears(10000, if year >= 10000 then year - 10000 else 0);
    MonthOfIsRight(year, 1, dayOfYear);
  }

  /** Every instant has a date that exists, and counts back to the instant. */
  lemma CivilOfIsRight(ms: nat)
    requires Milliseconds(ms)
    ensures Exists(CivilOf(ms)) && Instant(CivilOf(ms)) == ms
  {
    hide MonthOf, YearOf, DaysBeforeYear, DaysBeforeMonth, MonthLength;
    var c := CivilOf(ms);
    DateOfDay(ms / 86400000);
    TimeOfDay(ms);
    assert Exists(c);
    assert DayNumber(c) == ms / 86400000;
  }

  lemma {:induction false} MonthsAreOrdered(year: int, month: int, later: int)
    requires 1 <= month < later <= 13
    ensures DaysBeforeMonth(year, later) >= DaysBeforeMonth(year, month) + MonthLength(year, month)
    decreases later
  {
    if later > month + 1 {
      MonthsAreOrdered(year, month, later - 1);
    }
  }

  lemma WithinYear(c: Civil)
    requires Exists(c)
    ensures DaysBeforeMonth(c.year, c.month) + c.day - 1 < YearLength(c.year)
  {
    MonthsAreOrdered(c.year, c.month, 13);
    YearIsTwelveMonths(c.year);
  }

  lemma EarlierYear(c: Civil, d: Civil)
    requires Exists(c) && Exists(d) && c.year < d.year
    ensures DayNumber(c) < DayNumber(d)
  {
    hide DaysBeforeMonth, YearLength;
    WithinYear(c);
    YearStep(c.year);
    LaterYears(c.year + 1, d.year - c.year - 1);
  }

  lemma EarlierMonth(c: Civil, d: Civil)
    requires Exists(c) && Exists(d) && c.year == d.year && c.month < d.month
    ensures DayNumber(c) < DayNumber(d)
  {
    MonthsAreOrdered(c.year, c.month, d.month);
  }

  lemma SameDay(c: Civil, d: Civil)
    requires Exists(c) && Exists(d) && DayNumber(c) == DayNumber(d)
    ensures c.year == d.year && c.month == d.month && c.day == d.day
  {
    if c.year < d.year {
      EarlierYear(c, d);
    } else if d.year < c.year {
      EarlierYear(d, c);
    } else if c.month < d.month {
      EarlierMonth(c, d);
    } else if d.month < c.month {
      EarlierMonth(d, c);
    }
  }

  lemma SplitUnique(a: int, b: int, x: int, y: int, base: int)
    requires base in {24, 60, 1000} && 0 <= x < base && 0 <= y < base && a * base + x == b * base + y
    ensures a == b && x == y
  {
    if base == 24 {
      assert a * 24 + x == b * 24 + y;
    } else if base == 60 {
      assert a * 60 + x == b * 60 + y;
    } else {
      assert a * 1000 + x == b * 1000 + y;
    }
  }

  /** No two dates are the same instant. */
  lemma InstantIsInjective(c: Civil, d: Civil)
    requires Exists(c) && Exists(d) && Instant(c) == Instant(d)
    ensures c == d
  {
    SplitUnique(((DayNumber(c) * 24 + c.hour) * 60 + c.minute) * 60 + c.second,
        ((DayNumber(d) * 24 + d.hour) * 60 + d.minute) * 60 + d.second, c.milli, d.milli, 1000);
    SplitUnique((DayNumber(c) * 24 + c.hour) * 60 + c.minute, (DayNumber(d) * 24 + d.hour) * 60 + d.minute, c.second,
        d.second, 60);
    SplitUnique(DayNumber(c) * 24 + c.hour, DayNumber(d) * 24 + d.hour, c.minute, d.minute, 60);
    SplitUnique(DayNumber(c), DayNumber(d), c.hour, d.hour, 24);
    SameDay(c, d);
  }

  lemma InstantInRange(c: Civil)
    requires Exists(c)
    ensures Milliseconds(Instant(c))
  {
    WithinYear(c);
    YearStep(c.year);
    LaterYears(c.year + 1, 9999 - c.year);
    assert DaysBeforeYear(10000) - DaysBeforeYear(1970) == 2932897;
    assert DayNumber(c) <= 2932896;
  }

  // ----- The text -----

  function Digit(n: nat): (c: char)
    ensures IsDigit(c) && DigitValue(c) == n % 10
  {
    '0' + (n % 10) as char
  }

  predicate IsDigit(c: char) {
    '0' <= c <= '9'
  }

  function DigitValue(c: char): int {
    c as int - '0' as int
  }

  function Spell(c: Civil): string
    requires Exists(c)
  {
    [Digit(c.year / 1000), Digit(c.year / 100), Digit(c.year / 10), Digit(c.year), '-',
     Digit(c.month / 10), Digit(c.month), '-', Digit(c.day / 10), Digit(c.day), 'T',
     Digit(c.hour / 10), Digit(c.hour), ':', Digit(c.minute / 10), Digit(c.minute), ':',
     Digit(c.second / 10), Digit(c.second), '.', Digit(c.milli / 100), Digit(c.milli / 10), Digit(c.milli), 'Z']
  }

  /** The text of an instant, as `time.Format` writes it. */
  function FormatUtc(ms: nat): (text: string)
    requires Milliseconds(ms)
    ensures |text| == 24
  {
    CivilOfIsRight(ms);
    Spell(CivilOf(ms))
  }

  predicate DigitsAt(text: string, i: nat, n: nat)
    requires i + n <= |text|
  {
    forall k :: i <= k < i + n ==> IsDigit(text[k])
  }

  /** The date and time pattern both expressions start with. */
  predicate DateTimeSyntax(text: string) {
    && |text| >= 20
    && DigitsAt(text, 0, 4) && text[4] == '-' && DigitsAt(text, 5, 2) && text[7] == '-' && DigitsAt(text, 8, 2)
    && text[10] == 'T' && DigitsAt(text, 11, 2) && text[13] == ':' && DigitsAt(text, 14, 2) && text[16] == ':'
    && DigitsAt(text, 17, 2)
  }

  /** `signalExpirySyntax`: up to nine digits of a fraction, or none. */
  predicate ExpirySyntax(text: string) {
    && DateTimeSyntax(text)
    && text[|text| - 1] == 'Z'
    && (|text| == 20 || (22 <= |text| <= 30 && text[19] == '.' && DigitsAt(text, 20, |text| - 21)))
  }

  function Two(text: string, i: nat): int
    requires i + 2 <= |text|
  {
    DigitValue(text[i]) * 10 + DigitValue(text[i + 1])
  }

  /** What the groups of the pattern spell, in whole seconds. */
  function Fields(text: string): Civil
    requires |text| >= 20
  {
    Civil(Two(text, 0) * 100 + Two(text, 2), Two(text, 5), Two(text, 8), Two(text, 11), Two(text, 14), Two(text, 17), 0)
  }

  /** `Atoi` of the group that starts at `i`. */
  method ReadGroup(text: string, i: nat, n: nat) returns (value: int)
    requires i + n <= |text| && (n == 2 || n == 4)
    ensures value == if n == 2 then Two(text, i) else Two(text, i) * 100 + Two(text, i + 2)
  {
    value := 0;
    for k := 0 to n
      invariant k == 0 ==> value == 0
      invariant k == 1 ==> value == DigitValue(text[i])
      invariant k == 2 ==> value == Two(text, i)
      invariant k == 3 ==> value == Two(text, i) * 10 + DigitValue(text[i + 2])
      invariant k == 4 ==> value == Two(text, i) * 100 + Two(text, i + 2)
    {
      value := value * 10 + DigitValue(text[i + k]);
    }
  }

  /** `signalUTCExpiry` on a string. */
  method SignalUtcExpiry(text: string) returns (ok: bool)
    ensures ok <==> UtcExpiry(text)
  {
    if !ExpirySyntax(text) {
      return false;
    }
    var starts := [0, 5, 8, 11, 14, 17];
    var parts := new int[6];
    for i := 0 to 6
      invariant i > 0 ==> parts[0] == Fields(text).year
      invariant i > 1 ==> parts[1] == Fields(text).month
      invariant i > 2 ==> parts[2] == Fields(text).day
      invariant i > 3 ==> parts[3] == Fields(text).hour
      invariant i > 4 ==> parts[4] == Fields(text).minute
      invariant i > 5 ==> parts[5] == Fields(text).second
    {
      var value := ReadGroup(text, starts[i], if i == 0 then 4 else 2);
      parts[i] := value;
    }
    var year, month, day := parts[0], parts[1], parts[2];
    var days := new int[] [31, 28, 31, 30, 31, 30, 31, 31, 30, 31, 30, 31];
    if year % 4 == 0 && (year % 100 != 0 || year % 400 == 0) {
      days[1] := 29;
    }
    ok := && year >= 1970 && month >= 1 && month <= 12 && day >= 1 && day <= days[month - 1]
          && parts[3] < 24 && parts[4] < 60 && parts[5] < 60;
  }

  /** The pattern, and a date and time that exist. */
  predicate UtcExpiry(text: string) {
    ExpirySyntax(text) && Exists(Fields(text))
  }

  /** `presenceTimestamp`: exactly three digits of a fraction, and the instant. */
  function PresenceTimestamp(text: string): (ms: Option<nat>)
    ensures ms.Some? ==> Milliseconds(ms.value)
  {
    if |text| == 24 && ExpirySyntax(text) && Exists(Fields(text)) then
      var c := Fields(text).(milli := Two(text, 20) * 10 + DigitValue(text[22]));
      InstantInRange(c);
      Some(Instant(c))
    else None
  }

  lemma TwoDigits(n: nat, text: string, i: nat)
    requires n < 100 && i + 2 <= |text| && text[i] == Digit(n / 10) && text[i + 1] == Digit(n)
    ensures Two(text, i) == n
  {
  }

  lemma YearSpelled(c: Civil)
    requires Exists(c)
    ensures Two(Spell(c), 0) * 100 + Two(Spell(c), 2) == c.year
  {
    hide Two, Digit, DigitValue, MonthLength;
    Hundreds(c.year / 100, c.year % 100);
    SameDigit(c.year / 1000, c.year / 100 / 10);
    SameDigit(c.year / 10, c.year % 100 / 10);
    SameDigit(c.year, c.year % 100);
    TwoDigits(c.year / 100, Spell(c), 0);
    TwoDigits(c.year % 100, Spell(c), 2);
  }

  lemma MilliSpelled(c: Civil)
    requires Exists(c)
    ensures Two(Spell(c), 20) * 10 + DigitValue(Spell(c)[22]) == c.milli
  {
    hide Two, MonthLength;
    SameDigit(c.milli / 100, c.milli / 10 / 10);
    TwoDigits(c.milli / 10, Spell(c), 20);
  }

  lemma DaysOfMonth(c: Civil)
    requires Exists(c)
    ensures c.day <= 31
  {
  }

  lemma RestSpelled(c: Civil)
    requires Exists(c)
    ensures Two(Spell(c), 5) == c.month && Two(Spell(c), 8) == c.day
    ensures Two(Spell(c), 11) == c.hour && Two(Spell(c), 14) == c.minute && Two(Spell(c), 17) == c.second
  {
    hide Two, Digit, DigitValue, MonthLength;
    DaysOfMonth(c);
    TwoDigits(c.month, Spell(c), 5);
    TwoDigits(c.day, Spell(c), 8);
    TwoDigits(c.hour, Spell(c), 11);
    TwoDigits(c.minute, Spell(c), 14);
    TwoDigits(c.second, Spell(c), 17);
  }

  lemma SpelledSyntax(c: Civil)
    requires Exists(c)
    ensures ExpirySyntax(Spell(c))
  {
    hide Digit, MonthLength;
  }

  lemma SpelledFields(c: Civil)
    requires Exists(c)
    ensures ExpirySyntax(Spell(c)) && Fields(Spell(c)) == c.(milli := 0)
    ensures Two(Spell(c), 20) * 10 + DigitValue(Spell(c)[22]) == c.milli
  {
    hide Spell, Two, Exists, ExpirySyntax;
    SpelledSyntax(c);
    YearSpelled(c);
    RestSpelled(c);
    MilliSpelled(c);
  }

  lemma SameDigit(a: nat, b: nat)
    requires a % 10 == b % 10
    ensures Digit(a) == Digit(b)
  {
  }

  /** Every expiry the preparations write is one the classifier accepts, and presence reads it back
      as the same instant. */
  lemma FormattedIsRead(ms: nat)
    requires Milliseconds(ms)
    ensures UtcExpiry(FormatUtc(ms)) && PresenceTimestamp(FormatUtc(ms)) == Some(ms)
  {
    hide Spell, Two, MonthLength, CivilOf, Instant, ExpirySyntax;
    CivilOfIsRight(ms);
    SpelledFields(CivilOf(ms));
  }

  lemma DigitBack(d: char)
    requires IsDigit(d)
    ensures Digit(DigitValue(d)) == d
  {
  }

  lemma TwoBack(text: string, i: nat)
    requires i + 2 <= |text| && DigitsAt(text, i, 2)
    ensures 0 <= Two(text, i) < 100
    ensures Digit(Two(text, i) / 10) == text[i] && Digit(Two(text, i)) == text[i + 1]
  {
    assert IsDigit(text[i]) && IsDigit(text[i + 1]);
    DigitBack(text[i]);
    DigitBack(text[i + 1]);
  }

  /** The other way round: a timestamp with milliseconds is accepted exactly when some instant is
      written that way. */
  lemma ReadIsFormatted(text: string)
    requires |text| == 24
    ensures UtcExpiry(text) <==> exists ms: nat :: Milliseconds(ms) && FormatUtc(ms) == text
    ensures PresenceTimestamp(text).Some? ==> FormatUtc(PresenceTimestamp(text).value) == text
  {
    if exists ms: nat :: Milliseconds(ms) && FormatUtc(ms) == text {
      var ms: nat :| Milliseconds(ms) && FormatUtc(ms) == text;
      FormattedIsRead(ms);
    }
    if UtcExpiry(text) {
      var c := Fields(text).(milli := Two(text, 20) * 10 + DigitValue(text[22]));
      WithMillis(text);
      hide Exists, Two, DigitValue, Spell, Instant, CivilOf, ExpirySyntax;
      SpellFields(text, c);
      InstantInRange(c);
      CivilOfIsRight(Instant(c));
      InstantIsInjective(CivilOf(Instant(c)), c);
    }
  }

  /** The milliseconds of an accepted text never spoil the date. */
  lemma WithMillis(text: string)
    requires |text| == 24 && UtcExpiry(text)
    ensures Exists(Fields(text).(milli := Two(text, 20) * 10 + DigitValue(text[22])))
  {
    assert DigitsAt(text, 20, 2) && IsDigit(text[22]);
    TwoBack(text, 20);
    hide MonthLength, Two;
  }

  lemma YearRespelled(text: string, c: Civil)
    requires |text| == 24 && DigitsAt(text, 0, 2) && DigitsAt(text, 2, 2)
    requires c.year == Two(text, 0) * 100 + Two(text, 2)
    ensures c.year >= 0
    ensures Digit(c.year / 1000) == text[0] && Digit(c.year / 100) == text[1]
    ensures Digit(c.year / 10) == text[2] && Digit(c.year) == text[3]
  {
    hide Two, Digit, DigitValue;
    TwoBack(text, 0);
    TwoBack(text, 2);
    Hundreds(Two(text, 0), Two(text, 2));
    SameDigit(c.year / 1000, Two(text, 0) / 10);
    SameDigit(c.year / 100, Two(text, 0));
    SameDigit(c.year / 10, Two(text, 2) / 10);
    SameDigit(c.year, Two(text, 2));
  }

  lemma Quotients(q: nat, r: nat, base: nat)
    requires base in {10, 100, 1000} && r < base
    ensures (q * base + r) / base == q && (q * base + r) % base == r
  {
    if base == 10 {
      assert (q * 10 + r) / 10 == q;
    } else if base == 100 {
      assert (q * 100 + r) / 100 == q;
    } else {
      assert (q * 1000 + r) / 1000 == q;
    }
  }

  /** The four digits of a year, one by one. */
  lemma FourDigits(a: nat, b: nat, c: nat, d: nat)
    requires b < 10 && c < 10 && d < 10
    ensures var n := (a * 10 + b) * 100 + (c * 10 + d);
            n / 1000 == a && n / 100 == a * 10 + b && n / 10 % 10 == c && n % 10 == d
  {
    Quotients(a, b * 100 + c * 10 + d, 1000);
    Quotients(a * 10 + b, c * 10 + d, 100);
    Quotients((a * 10 + b) * 10 + c, d, 10);
    Quotients(a * 10 + b, c, 10);
  }

  lemma Hundreds(high: nat, low: nat)
    requires low < 100
    ensures var n := high * 100 + low;
            n / 1000 == high / 10 && n / 100 == high && n / 10 % 10 == low / 10 % 10 && n % 10 == low % 10
  {
    FourDigits(high / 10, high % 10, low / 10, low % 10);
  }

  lemma MilliRespelled(text: string, c: Civil)
    requires |text| == 24 && DigitsAt(text, 20, 2) && IsDigit(text[22])
    requires c.milli == Two(text, 20) * 10 + DigitValue(text[22])
    ensures c.milli >= 0
    ensures Digit(c.milli / 100) == text[20] && Digit(c.milli / 10) == text[21] && Digit(c.milli) == text[22]
  {
    hide Two, Digit;
    TwoBack(text, 20);
    DigitBack(text[22]);
    SameDigit(c.milli / 100, Two(text, 20) / 10);
    SameDigit(c.milli / 10, Two(text, 20));
    SameDigit(c.milli, DigitValue(text[22]));
  }

  lemma SpellFields(text: string, c: Civil)
    requires |text| == 24 && ExpirySyntax(text) && Exists(c)
    requires c == Fields(text).(milli := Two(text, 20) * 10 + DigitValue(text[22]))
    ensures Spell(c) == text
  {
    hide Two, Digit, DigitValue, MonthLength;
    assert IsDigit(text[22]) && DigitsAt(text, 0, 2) && DigitsAt(text, 2, 2) && DigitsAt(text, 20, 2);
    YearRespelled(text, c);
    TwoBack(text, 5);
    TwoBack(text, 8);
    TwoBack(text, 11);
    TwoBack(text, 14);
    TwoBack(text, 17);
    MilliRespelled(text, c);
  }
}
