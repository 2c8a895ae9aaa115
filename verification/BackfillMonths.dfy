/**
 The month range of the backfill (`_valid_month` and `inclusive_months` in
 backend/scripts/download_living_population_history.py).
 */
module BackfillMonths {
  import opened Outcomes
  import opened TextOrder

  const HISTORY_START_MONTH := "202301"

  datatype Month = Month(year: int, month: int)

  predicate IsDigit(c: char) {
    '0' <= c <= '9'
  }

  function DigitValue(c: char): (d: nat)
    requires IsDigit(c)
    ensures d < 10
  {
    (c - '0') as int
  }

  function DigitOf(d: nat): (c: char)
    requires d < 10
    ensures IsDigit(c) && DigitValue(c) == d
  {
    '0' + d as char
  }

  predicate AllDigits(value: string) {
    forall i :: 0 <= i < |value| ==> IsDigit(value[i])
  }

  predicate IsMonth(m: Month) {
    2000 <= m.year <= 2099 && 1 <= m.month <= 12
  }

  /** `_valid_month` */
  function ParseMonth(value: string): (parsed: Result<Month>)
    ensures parsed.Ok? ==> IsMonth(parsed.value)
  {
    if |value| != 6 || !AllDigits(value) then Error("month must be YYYYMM digits")
    else
      var m := Month(Thousands(DigitValue(value[0]), DigitValue(value[1]), DigitValue(value[2]), DigitValue(value[3])),
                     10 * DigitValue(value[4]) + DigitValue(value[5]));
      if IsMonth(m) then Ok(m) else Error("month must be a valid 20xx calendar month")
  }

  function Thousands(a: nat, b: nat, c: nat, d: nat): nat {
    1000 * a + 100 * b + 10 * c + d
  }

  /** `f"{year:04d}{month:02d}"` */
  function Render(m: Month): (value: string)
    requires IsMonth(m)
    ensures |value| == 6
  {
    [DigitOf(m.year / 1000), DigitOf(m.year / 100 % 10), DigitOf(m.year / 10 % 10), DigitOf(m.year % 10),
     DigitOf(m.month / 10), DigitOf(m.month % 10)]
  }

  /** Months counted from year zero. */
  function Count(m: Month): int {
    12 * m.year + m.month - 1
  }

  function FromCount(n: int): Month {
    Month(n / 12, n % 12 + 1)
  }

  /** `inclusive_months` in closed form. */
  function MonthsOf(start: string, end: string): Result<seq<string>> {
    match ParseMonth(start)
    case Error(message) => Error(message)
    case Ok(first) =>
      match ParseMonth(end)
      case Error(message) => Error(message)
      case Ok(last) =>
        if Before(start, HISTORY_START_MONTH) then Error("start month predates the verified history boundary")
        else if Count(first) > Count(last) then Error("start month must not be after end month")
        else Ok(Range(first, Count(last) - Count(first) + 1))
  }

  function Range(first: Month, n: nat): seq<string>
    requires IsMonth(first) && Count(first) + n - 1 <= Count(Month(2099, 12))
  {
    seq(n, i requires 0 <= i < n => Render(Later(first, i)))
  }

  /** The month `i` months later. */
  function Later(first: Month, i: nat): (m: Month)
    requires IsMonth(first) && Count(first) + i <= Count(Month(2099, 12))
    ensures IsMonth(m) && Count(m) == Count(first) + i
  {
    FromCount(Count(first) + i)
  }

  /** The loop over years and months. */
  method InclusiveMonths(start: string, end: string) returns (result: Result<seq<string>>)
    ensures result == MonthsOf(start, end)
  {
    var first := ParseMonth(start);
    if first.Error? {
      return Error(first.message);
    }
    var last := ParseMonth(end);
    if last.Error? {
      return Error(last.message);
    }
    if Before(start, HISTORY_START_MONTH) {
      return Error("start month predates the verified history boundary");
    }
    if first.value.year > last.value.year
       || (first.value.year == last.value.year && first.value.month > last.value.month) {
      return Error("start month must not be after end month");
    }
    var months: seq<string> := [];
    hide *;
    var year, month := first.value.year, first.value.month;
    while year < last.value.year || (year == last.value.year && month <= last.value.month)
      invariant 1 <= month <= 12 && 2000 <= year
      invariant Count(Month(year, month)) == Count(first.value) + |months| <= Count(last.value) + 1
      invariant IsMonth(first.value) && IsMonth(last.value) && months == Range(first.value, |months|)
      decreases Count(last.value) + 1 - Count(Month(year, month))
    {
      NextMonth(first.value, |months|, Month(year, month), last.value);
      months := months + [Render(Month(year, month))];
      if month == 12 {
        year, month := year + 1, 1;
      } else {
        month := month + 1;
      }
    }
    NoMonthLeft(start, end, Month(year, month), |months|);
    result := Ok(months);
  }

  lemma NextMonth(first: Month, n: nat, next: Month, last: Month)
    requires IsMonth(first) && IsMonth(last) && Count(next) == Count(first) + n && 1 <= next.month <= 12
             && 2000 <= next.year
    requires next.year < last.year || (next.year == last.year && next.month <= last.month)
    ensures IsMonth(next) && Range(first, n + 1) == Range(first, n) + [Render(next)]
    ensures var after := if next.month == 12 then Month(next.year + 1, 1) else Month(next.year, next.month + 1);
            Count(after) == Count(first) + n + 1 <= Count(last) + 1
  {
    hide Render;
    SameCount(Later(first, n), next);
  }

  lemma NoMonthLeft(start: string, end: string, next: Month, n: nat)
    requires ParseMonth(start).Ok? && ParseMonth(end).Ok? && !Before(start, HISTORY_START_MONTH)
             && 1 <= next.month <= 12
    requires var first, last := ParseMonth(start).value, ParseMonth(end).value;
             && Count(first) <= Count(last) && Count(next) == Count(first) + n <= Count(last) + 1
             && (next.year > last.year || (next.year == last.year && next.month > last.month))
    ensures MonthsOf(start, end) == Ok(Range(ParseMonth(start).value, n))
  {
    hide ParseMonth, Before, Range;
  }

  // ---------------------------------------------------------------------------------------
  // Month names
  // ---------------------------------------------------------------------------------------

  lemma ParseRender(m: Month)
    requires IsMonth(m)
    ensures ParseMonth(Render(m)) == Ok(m)
  {
    YearDigits(m.year);
  }

  lemma YearDigits(y: nat)
    requires y < 10_000
    ensures y / 1000 < 10 && Thousands(y / 1000, y / 100 % 10, y / 10 % 10, y % 10) == y
  {
    var r := y % 1000;
    var s := r % 100;
    ThousandsDigits(y / 1000, r / 100, s / 10, s % 10);
    assert Thousands(y / 1000, r / 100, s / 10, s % 10) == y;
  }

  lemma RenderParse(value: string)
    requires ParseMonth(value).Ok?
    ensures Render(ParseMonth(value).value) == value
  {
    var m := ParseMonth(value).value;
    DigitRoundTrip(value);
    ThousandsDigits(DigitValue(value[0]), DigitValue(value[1]), DigitValue(value[2]), DigitValue(value[3]));
    TensDigits(DigitValue(value[4]), DigitValue(value[5]));
    hide DigitOf, DigitValue, Thousands;
    assert Render(m) == [value[0], value[1], value[2], value[3], value[4], value[5]];
  }

  lemma ThousandsDigits(a: nat, b: nat, c: nat, d: nat)
    requires a < 10 && b < 10 && c < 10 && d < 10
    ensures var y := Thousands(a, b, c, d); y / 1000 == a && y / 100 % 10 == b && y / 10 % 10 == c && y % 10 == d
  {
    var y := Thousands(a, b, c, d);
    assert y / 100 == 10 * a + b && y / 10 == 100 * a + 10 * b + c;
  }

  lemma TensDigits(a: nat, b: nat)
    requires a < 10 && b < 10
    ensures (10 * a + b) / 10 == a && (10 * a + b) % 10 == b
  {
  }

  lemma DigitRoundTrip(value: string)
    requires AllDigits(value)
    ensures forall i :: 0 <= i < |value| ==> DigitOf(DigitValue(value[i])) == value[i]
  {
  }

  /** The string order of month names is the order of the calendar. */
  lemma NamesSortLikeMonths(a: string, b: string)
    requires ParseMonth(a).Ok? && ParseMonth(b).Ok?
    ensures Before(a, b) <==> Count(ParseMonth(a).value) < Count(ParseMonth(b).value)
  {
    hide Before;
    SixDeep(a, b);
    DigitsSortLikeNumbers(
      DigitValue(a[0]), DigitValue(a[1]), DigitValue(a[2]), DigitValue(a[3]), 10 * DigitValue(a[4]) + DigitValue(a[5]),
      DigitValue(b[0]), DigitValue(b[1]), DigitValue(b[2]), DigitValue(b[3]), 10 * DigitValue(b[4]) + DigitValue(b[5]));
    CharsSortLikeDigits(a, b);
  }

  lemma CharsSortLikeDigits(a: string, b: string)
    requires |a| == |b| && AllDigits(a) && AllDigits(b)
    ensures forall i :: 0 <= i < |a| ==> (a[i] < b[i] <==> DigitValue(a[i]) < DigitValue(b[i]))
    ensures forall i :: 0 <= i < |a| ==> (a[i] == b[i] <==> DigitValue(a[i]) == DigitValue(b[i]))
  {
  }

  lemma DigitsSortLikeNumbers(a: nat, b: nat, c: nat, d: nat, m: nat, a1: nat, b1: nat, c1: nat, d1: nat, m1: nat)
    requires b < 10 && c < 10 && d < 10 && 1 <= m <= 12 && b1 < 10 && c1 < 10 && d1 < 10 && 1 <= m1 <= 12
    ensures Count(Month(Thousands(a, b, c, d), m)) < Count(Month(Thousands(a1, b1, c1, d1), m1)) <==>
            a < a1 || (a == a1 && (b < b1 || (b == b1 && (c < c1 || (c == c1 && (d < d1 || (d == d1 && m < m1)))))))
  {
  }

  lemma SixDeep(a: string, b: string)
    requires |a| == |b| == 6
    ensures Before(a, b) <==>
            || a[0] < b[0]
            || (a[0] == b[0] && (a[1] < b[1] || (a[1] == b[1] && (a[2] < b[2] || (a[2] == b[2] && (a[3] < b[3]
               || (a[3] == b[3] && (a[4] < b[4] || (a[4] == b[4] && a[5] < b[5])))))))))
  {
    assert Before(a, b) <==> a[0] < b[0] || (a[0] == b[0] && Before(a[1..], b[1..]));
    assert Before(a[1..], b[1..]) <==> a[1] < b[1] || (a[1] == b[1] && Before(a[1..][1..], b[1..][1..]));
    assert a[1..][1..] == a[2..] && b[1..][1..] == b[2..];
    assert Before(a[2..], b[2..]) <==> a[2] < b[2] || (a[2] == b[2] && Before(a[2..][1..], b[2..][1..]));
    assert a[2..][1..] == a[3..] && b[2..][1..] == b[3..];
    assert Before(a[3..], b[3..]) <==> a[3] < b[3] || (a[3] == b[3] && Before(a[3..][1..], b[3..][1..]));
    assert a[3..][1..] == a[4..] && b[3..][1..] == b[4..];
    assert Before(a[4..], b[4..]) <==> a[4] < b[4] || (a[4] == b[4] && Before(a[4..][1..], b[4..][1..]));
    assert a[4..][1..] == a[5..] && b[4..][1..] == b[5..];
    assert Before(a[5..], b[5..]) <==> a[5] < b[5] || (a[5] == b[5] && Before(a[5..][1..], b[5..][1..]));
    assert a[5..][1..] == [] && b[5..][1..] == [];
  }

  /** The range holds exactly the month names between its ends, each once and in order. */
  lemma RangeIsExact(start: string, end: string)
    requires MonthsOf(start, end).Ok?
    ensures var months := MonthsOf(start, end).value;
            && (forall value :: value in months <==>
                                ParseMonth(value).Ok? && !Before(value, start) && !Before(end, value))
            && (forall i, j :: 0 <= i < j < |months| ==> Before(months[i], months[j]))
  {
    hide Before, ParseMonth, Render;
    var months, first, last := MonthsOf(start, end).value, ParseMonth(start).value, ParseMonth(end).value;
    forall i | 0 <= i < |months|
      ensures ParseMonth(months[i]) == Ok(Later(first, i))
    {
      ParseRender(Later(first, i));
    }
    forall value
      ensures value in months <==> ParseMonth(value).Ok? && !Before(value, start) && !Before(end, value)
    {
      if ParseMonth(value).Ok? {
        NamesSortLikeMonths(value, start);
        NamesSortLikeMonths(end, value);
        var i := Count(ParseMonth(value).value) - Count(first);
        if !Before(value, start) && !Before(end, value) {
          RenderParse(value);
          SameCount(Later(first, i), ParseMonth(value).value);
          assert months[i] == value;
        }
      }
    }
    forall i, j | 0 <= i < j < |months|
      ensures Before(months[i], months[j])
    {
      NamesSortLikeMonths(months[i], months[j]);
    }
  }

  lemma SameCount(a: Month, b: Month)
    requires IsMonth(a) && IsMonth(b) && Count(a) == Count(b)
    ensures a == b
  {
  }
}
