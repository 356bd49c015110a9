/** Calendar days as integer ordinals, the `M月D日` week titles and the
    title parser (server/index.ts `getMonday`, `formatWeekTitle`,
    `parseWeekTitle`; the same helpers and the inline `format` of the
    week-settle handler in dist-server/index.js). Every year has 365 days;
    day 0 is Monday 1 January of year 0. */
module Calendar {
  import opened Text
  import opened Outcome

  // Every year has 365 days (`Cum[12]`); the literal is written out below
  // so that the solver sees linear arithmetic.

  /** Days before the first of each month, and the year's length. */
  const Cum: seq<int> := [0, 31, 59, 90, 120, 151, 181, 212, 243, 273, 304, 334, 365]

  /** `new Date(year, monthIndex, day)`: an out-of-range month index
      carries into the year, and the day counts on from the first of the
      month (day 0 is the last day of the month before). */
  function DayOf(year: int, monthIndex: int, day: int): int {
    365 * (year + monthIndex / 12) + Cum[monthIndex % 12] + day - 1
  }

  function YearOf(d: int): int {
    d / 365
  }

  /** The month (1 to 12) of a day of the year. */
  function MonthFrom(doy: int, m: nat): (r: nat)
    requires 0 <= doy < 365 && 1 <= m <= 12 && Cum[m - 1] <= doy
    ensures m <= r <= 12 && Cum[r - 1] <= doy < Cum[r]
    decreases 12 - m
  {
    if doy < Cum[m] then m else MonthFrom(doy, m + 1)
  }

  /** `getMonth() + 1` */
  function MonthOf(d: int): (m: nat)
    ensures 1 <= m <= 12
    ensures Cum[m - 1] <= d % 365 < Cum[m]
  {
    MonthFrom(d % 365, 1)
  }

  /** `getDate()` */
  function DayOfMonth(d: int): (n: nat)
    ensures 1 <= n <= Cum[MonthOf(d)] - Cum[MonthOf(d) - 1]
  {
    d % 365 - Cum[MonthOf(d) - 1] + 1
  }

  /** Year, month and day name the day they were read from. */
  lemma {:induction false} DateRoundTrip(d: int)
    ensures DayOf(YearOf(d), MonthOf(d) - 1, DayOfMonth(d)) == d
  {
    var m := MonthOf(d);
    assert (m - 1) / 12 == 0 && (m - 1) % 12 == m - 1;
  }

  /** A valid calendar date is read back unchanged. */
  lemma {:induction false} DateOfValid(year: int, month: int, day: int)
    requires 1 <= month <= 12 && 1 <= day <= Cum[month] - Cum[month - 1]
    ensures YearOf(DayOf(year, month - 1, day)) == year
    ensures MonthOf(DayOf(year, month - 1, day)) == month
    ensures DayOfMonth(DayOf(year, month - 1, day)) == day
  {
    assert (month - 1) / 12 == 0 && (month - 1) % 12 == month - 1;
    var d := DayOf(year, month - 1, day);
    var doy := Cum[month - 1] + day - 1;
    assert 0 <= doy < 365;
    assert d == 365 * year + doy;
    assert d % 365 == doy && d / 365 == year;
    MonthUnique(doy, MonthOf(d), month);
  }

  lemma {:induction false} MonthUnique(doy: int, m: int, n: int)
    requires 1 <= m <= 12 && 1 <= n <= 12
    requires Cum[m - 1] <= doy < Cum[m] && Cum[n - 1] <= doy < Cum[n]
    ensures m == n
  {
    if m < n {
      CumGrows(m, n - 1);
    } else if n < m {
      CumGrows(n, m - 1);
    }
  }

  lemma {:induction false} CumGrows(i: int, j: int)
    requires 0 <= i <= j <= 12
    ensures Cum[i] <= Cum[j]
  {
  }

  /** `getDay()`: 0 is Sunday, and day 0 is a Monday. */
  function WeekDay(d: int): (w: int)
    ensures 0 <= w < 7
  {
    (d + 1) % 7
  }

  /** `getMonday(date)`: the Monday on or before the day. */
  function GetMonday(d: int): (r: int)
    ensures d - 6 <= r <= d
    ensures WeekDay(r) == 1
  {
    var w := WeekDay(d);
    d - (if w == 0 then 6 else w - 1)
  }

  /** There is one Monday in any seven consecutive days ending at `d`. */
  lemma {:induction false} MondayUnique(d: int, m: int)
    requires d - 6 <= m <= d && WeekDay(m) == 1
    ensures m == GetMonday(d)
  {
    var r := GetMonday(d);
    assert (m + 1) % 7 == (r + 1) % 7;
    assert (m - r) % 7 == 0;
  }

  lemma {:induction false} GetMondayOfMonday(d: int)
    ensures GetMonday(GetMonday(d)) == GetMonday(d)
  {
    MondayUnique(GetMonday(d), GetMonday(d));
  }

  // ----------------------------------------------------------------- titles

  /** `${month}月${day}日` */
  function MonthDayText(month: nat, day: nat): string {
    NatToString(month) + "月" + NatToString(day) + "日"
  }

  /** `${getMonth() + 1}月${getDate()}日` */
  function FormatDay(d: int): string {
    MonthDayText(MonthOf(d), DayOfMonth(d))
  }

  /** `${format(first)} - ${format(last)}` */
  function TitleText(m1: nat, d1: nat, m2: nat, d2: nat): string {
    MonthDayText(m1, d1) + " - " + MonthDayText(m2, d2)
  }

  /** `formatWeekTitle(start)`: the first and the seventh day of the week. */
  function WeekTitle(start: int): string {
    TitleText(MonthOf(start), DayOfMonth(start), MonthOf(start + 6), DayOfMonth(start + 6))
  }

  /** The four numbers `/(\d+)月(\d+)日\s*-\s*(\d+)月(\d+)日/` captures. */
  datatype TitleMatch = TitleMatch(startMonth: nat, startDay: nat, endMonth: nat, endDay: nat)

  /** The value of the digits `s[k..k+n]`. */
  function Number(s: string, k: nat, n: nat): nat
    requires k + n <= |s|
  {
    if n == 0 then 0 else Number(s, k, n - 1) * 10 + DigitValue(s[k + n - 1])
  }

  function DigitValue(c: char): nat {
    if IsDigit(c) then c as int - '0' as int else 0
  }

  /** The two numbers of `(\d+)月(\d+)日` and the position after it. */
  datatype MonthDay = MonthDay(month: nat, day: nat, end: nat)

  /** `(\d+)月(\d+)日` at `p`; the greedy runs leave no other way to match.
      Gives the two numbers and the position after `日`. */
  function MonthDayMatch(s: string, p: nat): (r: Option<MonthDay>)
    requires p <= |s|
    ensures r.Some? ==> p < r.value.end <= |s|
  {
    var a := DigitRun(s, p);
    if a == 0 || p + a == |s| || s[p + a] != '月' then None
    else
      var b := DigitRun(s, p + a + 1);
      if b == 0 || p + a + 1 + b == |s| || s[p + a + 1 + b] != '日' then None
      else Some(MonthDay(Number(s, p, a), Number(s, p + a + 1, b), p + a + b + 2))
  }

  /** `\s*-\s*` at `q`, giving the position after it. */
  function DashAt(s: string, q: nat): (r: Option<nat>)
    requires q <= |s|
    ensures r.Some? ==> q < r.value <= |s|
  {
    var w := WsRun(s, q);
    if q + w == |s| || s[q + w] != '-' then None
    else Some(q + w + 1 + WsRun(s, q + w + 1))
  }

  /** The whole title pattern at position `p`. */
  function TitleAt(s: string, p: nat): Option<TitleMatch>
    requires p <= |s|
  {
    var first := MonthDayMatch(s, p);
    if first.None? then None
    else
      var dash := DashAt(s, first.value.end);
      if dash.None? then None
      else
        var second := MonthDayMatch(s, dash.value);
        if second.None? then None
        else Some(TitleMatch(first.value.month, first.value.day, second.value.month, second.value.day))
  }

  /** The leftmost match at or after `p`. */
  function FindTitle(s: string, p: nat): Option<TitleMatch>
    requires p <= |s|
    decreases |s| - p
  {
    if TitleAt(s, p).Some? then TitleAt(s, p)
    else if p == |s| then None
    else FindTitle(s, p + 1)
  }

  /** `title.match(/(\d+)月(\d+)日\s*-\s*(\d+)月(\d+)日/)` */
  function MatchTitle(s: string): Option<TitleMatch> {
    FindTitle(s, 0)
  }

  /** The search fails exactly when no position has a match. */
  lemma {:induction false} FindTitleNone(s: string, p: nat)
    requires p <= |s|
    ensures FindTitle(s, p).None? <==> forall q :: p <= q <= |s| ==> TitleAt(s, q).None?
    decreases |s| - p
  {
    if TitleAt(s, p).None? && p < |s| {
      FindTitleNone(s, p + 1);
    }
  }

  /** The search finds the match at the first position that has one. */
  lemma {:induction false} FindTitleLeftmost(s: string, p: nat, q: nat)
    requires p <= q <= |s| && TitleAt(s, q).Some?
    requires forall k :: p <= k < q ==> TitleAt(s, k).None?
    ensures FindTitle(s, p) == TitleAt(s, q)
    decreases q - p
  {
    if p < q {
      FindTitleStep(s, p);
      FindTitleLeftmost(s, p + 1, q);
    }
  }

  /** Past a position without a match the search goes on at the next. */
  lemma {:induction false} FindTitleStep(s: string, p: nat)
    requires p < |s| && TitleAt(s, p).None?
    ensures FindTitle(s, p) == FindTitle(s, p + 1)
  {
  }

  /** `parseWeekTitle(title)` of the older server: the first day of the
      title in the given (current) year, or nothing without a match. */
  function ParseWeekTitle(title: string, year: int): (r: Option<int>)
    ensures r.None? <==> MatchTitle(title).None?
  {
    match MatchTitle(title)
    case None => None
    case Some(t) => Some(DayOf(year, t.startMonth - 1, t.startDay))
  }

  // ------------------------------------------------------------ round trip

  /** A digit run of known length. */
  lemma {:induction false} DigitRunIs(s: string, k: nat, n: nat)
    requires k + n <= |s| && forall i :: k <= i < k + n ==> IsDigit(s[i])
    requires k + n < |s| ==> !IsDigit(s[k + n])
    ensures DigitRun(s, k) == n
    decreases n
  {
    if n > 0 {
      DigitRunIs(s, k + 1, n - 1);
    }
  }

  /** `t` occurs in `s` at `p`, character by character. */
  predicate At(s: string, p: nat, t: string) {
    p + |t| <= |s| && forall i :: 0 <= i < |t| ==> s[p + i] == t[i]
  }

  /** Digits followed by a non-digit: the run and its value. */
  lemma {:induction false} DigitsAt(s: string, k: nat, a: string)
    requires At(s, k, a) && AllDigits(a) && k + |a| < |s| && !IsDigit(s[k + |a|])
    ensures DigitRun(s, k) == |a| && Number(s, k, |a|) == DigitsValue(a)
  {
    assert forall i :: k <= i < k + |a| ==> s[i] == a[i - k];
    DigitRunIs(s, k, |a|);
    NumberIs(s, k, a);
  }

  lemma {:induction false} NumberIs(s: string, k: nat, a: string)
    requires At(s, k, a) && AllDigits(a)
    ensures Number(s, k, |a|) == DigitsValue(a)
    decreases |a|
  {
    if |a| > 0 {
      var b := a[..|a| - 1];
      assert At(s, k, b) && AllDigits(b);
      NumberIs(s, k, b);
    }
  }

  /** `a月b日` at `p`, `a` and `b` non-empty digit strings. */
  lemma {:induction false} MonthDayAtText(s: string, p: nat, a: string, b: string)
    requires |a| > 0 && |b| > 0 && AllDigits(a) && AllDigits(b)
    requires At(s, p, a) && At(s, p + |a| + 1, b)
    requires p + |a| + |b| + 2 <= |s| && s[p + |a|] == '月' && s[p + |a| + 1 + |b|] == '日'
    ensures MonthDayMatch(s, p) == Some(MonthDay(DigitsValue(a), DigitsValue(b), p + |a| + |b| + 2))
  {
    DigitsAt(s, p, a);
    DigitsAt(s, p + |a| + 1, b);
    MonthDayMatchOf(s, p, |a|, |b|, DigitsValue(a), DigitsValue(b));
  }

  lemma {:induction false} MonthDayMatchOf(s: string, p: nat, na: nat, nb: nat, va: nat, vb: nat)
    requires p + na + nb + 2 <= |s| && na > 0 && nb > 0
    requires DigitRun(s, p) == na && s[p + na] == '月'
    requires DigitRun(s, p + na + 1) == nb && s[p + na + 1 + nb] == '日'
    requires Number(s, p, na) == va && Number(s, p + na + 1, nb) == vb
    ensures MonthDayMatch(s, p) == Some(MonthDay(va, vb, p + na + nb + 2))
  {
  }

  /** A title parses back into the numbers it was made from. */
  lemma {:induction false} TitleRoundTrip(m1: nat, d1: nat, m2: nat, d2: nat)
    ensures MatchTitle(TitleText(m1, d1, m2, d2)) == Some(TitleMatch(m1, d1, m2, d2))
  {
    var a, b, c, d := NatToString(m1), NatToString(d1), NatToString(m2), NatToString(d2);
    DigitsValueOfNatToString(m1);
    DigitsValueOfNatToString(d1);
    DigitsValueOfNatToString(m2);
    DigitsValueOfNatToString(d2);
    var s := TitleText(m1, d1, m2, d2);
    assert s == a + "月" + b + "日" + " - " + c + "月" + d + "日";
    PartsAt(s, a, b, c, d);
    TitleAtParts(s, a, b, c, d);
  }

  /** The pattern matches a title at its first character. */
  lemma {:induction false} TitleAtParts(s: string, a: string, b: string, c: string, d: string)
    requires |a| > 0 && |b| > 0 && |c| > 0 && |d| > 0
    requires AllDigits(a) && AllDigits(b) && AllDigits(c) && AllDigits(d)
    requires var q := |a| + |b| + 2; var r := q + 3;
      && |s| == r + |c| + |d| + 2
      && At(s, 0, a) && s[|a|] == '月' && At(s, |a| + 1, b) && s[|a| + 1 + |b|] == '日'
      && s[q] == ' ' && s[q + 1] == '-' && s[q + 2] == ' '
      && At(s, r, c) && s[r + |c|] == '月' && At(s, r + |c| + 1, d) && s[r + |c| + 1 + |d|] == '日'
    ensures TitleAt(s, 0) == Some(TitleMatch(DigitsValue(a), DigitsValue(b), DigitsValue(c), DigitsValue(d)))
  {
    var q := |a| + |b| + 2;
    MonthDayAtText(s, 0, a, b);
    assert IsDigit(c[0]) && s[q + 3] == c[0];
    DashRun(s, q);
    MonthDayAtText(s, q + 3, c, d);
    TitleAtOf(s, q, DigitsValue(a), DigitsValue(b), DigitsValue(c), DigitsValue(d));
  }

  lemma {:induction false} TitleAtOf(s: string, q: nat, v1: nat, v2: nat, v3: nat, v4: nat)
    requires q + 3 <= |s|
    requires MonthDayMatch(s, 0) == Some(MonthDay(v1, v2, q))
    requires DashAt(s, q) == Some(q + 3)
    requires MonthDayMatch(s, q + 3).Some? && MonthDayMatch(s, q + 3).value.month == v3 && MonthDayMatch(s, q + 3).value.day == v4
    ensures TitleAt(s, 0) == Some(TitleMatch(v1, v2, v3, v4))
  {
  }

  /** Where the parts of a title sit. */
  lemma {:induction false} PartsAt(s: string, a: string, b: string, c: string, d: string)
    requires s == a + "月" + b + "日" + " - " + c + "月" + d + "日"
    ensures var q := |a| + |b| + 2; var r := q + 3;
      && |s| == r + |c| + |d| + 2
      && At(s, 0, a) && s[|a|] == '月' && At(s, |a| + 1, b) && s[|a| + 1 + |b|] == '日'
      && s[q] == ' ' && s[q + 1] == '-' && s[q + 2] == ' '
      && At(s, r, c) && s[r + |c|] == '月' && At(s, r + |c| + 1, d) && s[r + |c| + 1 + |d|] == '日'
  {
  }

  /** ` - ` followed by a digit. */
  lemma {:induction false} DashRun(s: string, q: nat)
    requires q + 3 < |s| && s[q] == ' ' && s[q + 1] == '-' && s[q + 2] == ' ' && IsDigit(s[q + 3])
    ensures DashAt(s, q) == Some(q + 3)
  {
    assert WsRun(s, q + 1) == 0;
    assert WsRun(s, q + 3) == 0;
    assert WsRun(s, q) == 1 && WsRun(s, q + 2) == 1;
  }

  /** A week title gives back its first and last day. */
  lemma {:induction false} WeekTitleRoundTrip(start: int)
    ensures MatchTitle(WeekTitle(start)) ==
      Some(TitleMatch(MonthOf(start), DayOfMonth(start), MonthOf(start + 6), DayOfMonth(start + 6)))
  {
    TitleRoundTrip(MonthOf(start), DayOfMonth(start), MonthOf(start + 6), DayOfMonth(start + 6));
  }

  /** The older server reads back the Monday it wrote, in that Monday's
      year. */
  lemma {:induction false} ParseWeekTitleRoundTrip(monday: int)
    ensures ParseWeekTitle(WeekTitle(monday), YearOf(monday)) == Some(monday)
  {
    DateRoundTrip(monday);
    ParseWeekTitleOf(WeekTitle(monday), YearOf(monday), MonthOf(monday), DayOfMonth(monday), MonthOf(monday + 6), DayOfMonth(monday + 6));
  }

  lemma {:induction false} ParseWeekTitleOf(s: string, year: int, m1: nat, d1: nat, m2: nat, d2: nat)
    requires s == TitleText(m1, d1, m2, d2)
    ensures ParseWeekTitle(s, year) == Some(DayOf(year, m1 - 1, d1))
  {
    TitleRoundTrip(m1, d1, m2, d2);
    ParseOf(s, year, m1, d1, m2, d2);
  }

  lemma {:induction false} ParseOf(title: string, year: int, m1: nat, d1: nat, m2: nat, d2: nat)
    requires MatchTitle(title) == Some(TitleMatch(m1, d1, m2, d2))
    ensures ParseWeekTitle(title, year) == Some(DayOf(year, m1 - 1, d1))
  {
  }
}
