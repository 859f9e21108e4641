/** Date helpers on Time: a duration in words (humanize) and the two threshold cascades that
    choose how a timestamp is shown (relative_date, time_ago). Timestamps are whole seconds;
    the clock (now, local midnights, the year of a timestamp), strftime and String#pluralize
    are parameters. */
module Times {

  import opened Strings

  /** The clock as seen by the helpers: `Time.now`, the local midnights of today, yesterday and
      six days ago (`(Date.today - n).to_time`), `Date.today.year`, and the calendar year of a
      timestamp. */
  datatype Clock = Clock(now: int, today: int, yesterday: int, sixDaysAgo: int, year: int, yearOf: int -> int)

  /** What any real clock satisfies: the midnights are in order, years never decrease with time
      and today's midnight lies in the current year. */
  ghost predicate ValidClock(c: Clock) {
    && c.sixDaysAgo <= c.yesterday <= c.today
    && c.yearOf(c.today) == c.year
    && forall a, b :: a <= b ==> c.yearOf(a) <= c.yearOf(b)
  }

  /** A number of seconds split into days, hours, minutes and seconds. */
  datatype Duration = Duration(days: int, hours: nat, minutes: nat, seconds: nat)

  /** The floor divisions of humanize. For a fractional number of seconds `x` the source's
      results equal those for `floor(x)`, which is the argument here. */
  function Decompose(total: int): (d: Duration)
    ensures d.seconds < 60 && d.minutes < 60 && d.hours < 24
    ensures d.days * 86400 + d.hours * 3600 + d.minutes * 60 + d.seconds == total
  {
    var m := total / 60;
    var s := total % 60;
    var h := m / 60;
    var m' := m % 60;
    Duration(h / 24, h % 24, m', s)
  }

  /** The bounds fix the decomposition: it is the only one. */
  lemma DecomposeUnique(total: int, d: Duration)
    requires d.seconds < 60 && d.minutes < 60 && d.hours < 24
    requires d.days * 86400 + d.hours * 3600 + d.minutes * 60 + d.seconds == total
    ensures d == Decompose(total)
  {
    var e := Decompose(total);
    var x := d.days * 1440 + d.hours * 60 + d.minutes;
    var y := e.days * 1440 + e.hours * 60 + e.minutes;
    QuotientUnique(x, y, d.seconds, e.seconds, 60);
    var p := d.days * 24 + d.hours;
    var q := e.days * 24 + e.hours;
    QuotientUnique(p, q, d.minutes, e.minutes, 60);
    QuotientUnique(d.days, e.days, d.hours, e.hours, 24);
  }

  /** Quotient and remainder are unique. */
  lemma QuotientUnique(x: int, y: int, r: int, r': int, n: int)
    requires 0 <= r < n && 0 <= r' < n && x * n + r == y * n + r'
    ensures x == y && r == r'
  {
    if x != y {
      var lo, hi := if x < y then x else y, if x < y then y else x;
      MulDistributes(hi, lo, n);
      MulAtLeast(hi - lo, n);
    }
  }

  lemma MulDistributes(a: int, b: int, n: int)
    ensures (a - b) * n == a * n - b * n
  {
  }

  lemma {:induction false} MulAtLeast(a: int, n: int)
    requires a >= 1 && n >= 0
    ensures a * n >= n
    decreases a
  {
    if a > 1 {
      MulAtLeast(a - 1, n);
      assert a * n == (a - 1) * n + n;
    }
  }

  /** The position of a unit in humanize's output order. */
  function UnitRank(unit: string): nat {
    if unit == "day" then 0 else if unit == "hour" then 1 else if unit == "minute" then 2 else 3
  }

  /** Units listed in strictly increasing rank. */
  predicate Ranked(us: seq<(int, string)>) {
    forall i, j :: 0 <= i < j < |us| ==> UnitRank(us[i].1) < UnitRank(us[j].1)
  }

  /** The units humanize prints for a decomposed duration, largest first. */
  function UnitsOf(d: Duration): (r: seq<(int, string)>)
    ensures forall i :: 0 <= i < |r| ==> r[i].0 > 0
  {
    (if d.days > 0 then [(d.days, "day")] else [])
    + (if d.hours > 0 then [(d.hours as int, "hour")] else [])
    + (if d.minutes > 0 then [(d.minutes as int, "minute")] else [])
    + (if d.seconds > 0 then [(d.seconds as int, "second")] else [])
  }

  /** Exactly the units with a positive count are shown. */
  lemma UnitsOfShown(d: Duration)
    ensures var r := UnitsOf(d);
      && ((d.days, "day") in r <==> d.days > 0)
      && ((d.hours as int, "hour") in r <==> d.hours > 0)
      && ((d.minutes as int, "minute") in r <==> d.minutes > 0)
      && ((d.seconds as int, "second") in r <==> d.seconds > 0)
    ensures forall u :: u in UnitsOf(d) ==> u.1 in ["day", "hour", "minute", "second"]
  {
  }

  /** The shown units come largest first, each at most once. */
  lemma UnitsOfRanked(d: Duration)
    ensures Ranked(UnitsOf(d))
  {
  }

  function Units(total: int): seq<(int, string)> {
    UnitsOf(Decompose(total))
  }

  /** "#{n} #{unit.pluralize(n)}" for a positive count. */
  function UnitText(u: (int, string), pluralize: (string, int) -> string): (r: string)
    requires u.0 > 0
    ensures |r| > 0
  {
    NatToString(u.0) + " " + pluralize(u.1, u.0)
  }

  function UnitTexts(units: seq<(int, string)>, pluralize: (string, int) -> string): (r: seq<string>)
    requires forall i :: 0 <= i < |units| ==> units[i].0 > 0
    ensures |r| == |units|
    ensures forall i :: 0 <= i < |r| ==> r[i] == UnitText(units[i], pluralize)
    decreases |units|
  {
    if |units| == 0 then [] else [UnitText(units[0], pluralize)] + UnitTexts(units[1..], pluralize)
  }

  /** Time#humanize: the positive units joined with ", ". */
  function Humanize(total: int, pluralize: (string, int) -> string): string {
    Join(UnitTexts(Units(total), pluralize), ", ")
  }

  lemma JoinEmpty(parts: seq<string>, sep: string)
    requires forall i :: 0 <= i < |parts| ==> |parts[i]| > 0
    ensures Join(parts, sep) == [] <==> |parts| == 0
  {
    if |parts| > 0 {
      assert |Join(parts, sep)| >= |parts[0]|;
    }
  }

  /** The output is empty exactly when no unit is positive: for a non-negative duration, when it
      is shorter than a second. */
  lemma HumanizeEmpty(total: int, pluralize: (string, int) -> string)
    ensures Humanize(total, pluralize) == [] <==> total <= 0 && total % 86400 == 0
  {
    var units := Units(total);
    JoinEmpty(UnitTexts(units, pluralize), ", ");
    UnitsEmpty(Decompose(total));
    DecomposeWholeDays(total);
  }

  /** No unit is shown exactly when the day count is not positive and the rest is zero. */
  lemma UnitsEmpty(d: Duration)
    ensures |UnitsOf(d)| == 0 <==> d.days <= 0 && d.hours == 0 && d.minutes == 0 && d.seconds == 0
  {
  }

  /** A whole number of days has no hours, minutes or seconds. */
  lemma DecomposeWholeDays(total: int)
    ensures var d := Decompose(total);
      d.hours == 0 && d.minutes == 0 && d.seconds == 0 <==> total % 86400 == 0
    ensures var d := Decompose(total); d.days <= 0 <==> total < 86400
  {
    var d := Decompose(total);
    if total % 86400 == 0 {
      DecomposeUnique(total, Duration(total / 86400, 0, 0, 0));
    }
  }

  /** For an elapsed time: empty exactly for zero seconds. */
  lemma HumanizeEmptyElapsed(total: int, pluralize: (string, int) -> string)
    requires total >= 0
    ensures Humanize(total, pluralize) == [] <==> total == 0
  {
    HumanizeEmpty(total, pluralize);
  }

  /** Examples of the decomposition: an hour, a minute and a second; one second before a
      whole day, where the negative day count is not shown. */
  lemma UnitsExamples()
    ensures Units(3661) == [(1, "hour"), (1, "minute"), (1, "second")]
    ensures Units(-1) == [(23, "hour"), (59, "minute"), (59, "second")]
  {
    assert Decompose(3661) == Duration(0, 1, 1, 1);
    assert Decompose(-1) == Duration(-1, 23, 59, 59);
  }

  /** Three units are joined with ", ", each written as its count and pluralised word. */
  lemma HumanizeExample(pluralize: (string, int) -> string)
    ensures Humanize(3661, pluralize)
      == "1 " + pluralize("hour", 1) + ", 1 " + pluralize("minute", 1) + ", 1 " + pluralize("second", 1)
  {
    UnitsExamples();
    var u := Units(3661);
    assert NatToString(1) == "1";
    var h, m, sec := UnitText(u[0], pluralize), UnitText(u[1], pluralize), UnitText(u[2], pluralize);
    assert h == "1 " + pluralize("hour", 1);
    assert m == "1 " + pluralize("minute", 1);
    assert sec == "1 " + pluralize("second", 1);
    assert UnitTexts(u, pluralize) == [h, m, sec];
    JoinThree(h, m, sec, ", ");
  }

  lemma JoinThree(a: string, b: string, c: string, sep: string)
    ensures Join([a, b, c], sep) == a + sep + b + sep + c
  {
    assert [a, b, c][1..] == [b, c] && [b, c][1..] == [c];
    assert Join([b, c], sep) == b + sep + c;
  }

  /** How relative_date shows a timestamp, from nearest to most distant. */
  datatype DateStyle = TimeOnly | Weekday | MonthDay | FullDate

  function StyleRank(s: DateStyle): nat {
    match s
    case TimeOnly => 0
    case Weekday => 1
    case MonthDay => 2
    case FullDate => 3
  }

  /** The cascade of relative_date: the first threshold the timestamp passes decides. */
  function RelativeStyle(t: int, c: Clock): (r: DateStyle)
    ensures r == TimeOnly <==> t > c.today
    ensures r == Weekday <==> c.sixDaysAgo < t <= c.today
    ensures r == MonthDay <==> t <= c.today && t <= c.sixDaysAgo && c.yearOf(t) == c.year
  {
    if t > c.today then TimeOnly
    else if t > c.sixDaysAgo then Weekday
    else if c.yearOf(t) == c.year then MonthDay
    else FullDate
  }

  function RelativeFormat(s: DateStyle): string {
    match s
    case TimeOnly => "%_I:%M%P"
    case Weekday => "%a %_I:%M%P"
    case MonthDay => "%m/%d %_I:%M%P"
    case FullDate => "%m/%d/%Y %_I:%M%P"
  }

  /** Time#relative_date. */
  function RelativeDate(t: int, c: Clock, strftime: (string, int) -> string): string {
    strftime(RelativeFormat(RelativeStyle(t, c)), t)
  }

  /** On a real clock a later timestamp never gets a more distant style than an earlier one. */
  lemma RelativeStyleMonotone(t1: int, t2: int, c: Clock)
    requires ValidClock(c)
    requires t1 <= t2
    ensures StyleRank(RelativeStyle(t2, c)) <= StyleRank(RelativeStyle(t1, c))
  {
    if RelativeStyle(t1, c) == MonthDay && t2 <= c.sixDaysAgo {
      assert c.yearOf(t1) <= c.yearOf(t2) <= c.yearOf(c.today);
    }
  }

  /** Only timestamps from before this year get the full date. */
  lemma FullDateOnlyBeforeThisYear(t: int, c: Clock)
    requires ValidClock(c)
    ensures RelativeStyle(t, c) == FullDate ==> c.yearOf(t) < c.year
  {
    if t <= c.today {
      assert c.yearOf(t) <= c.yearOf(c.today);
    }
  }

  /** How time_ago shows a timestamp. */
  datatype AgoStyle = Today | Yesterday | Dated(style: DateStyle)

  function AgoStyleOf(t: int, c: Clock): AgoStyle {
    if t > c.today then Today
    else if t > c.yesterday then Yesterday
    else if t > c.sixDaysAgo then Dated(Weekday)
    else if c.yearOf(t) == c.year then Dated(MonthDay)
    else Dated(FullDate)
  }

  function AgoFormat(s: DateStyle): string {
    match s
    case TimeOnly => "%_I:%M:%S%P"
    case Weekday => "%a %I:%M:%S%P"
    case MonthDay => "%m/%d %I:%M:%S%P"
    case FullDate => "%m/%d/%Y %I:%M:%S%P"
  }

  /** Time#time_ago. */
  function TimeAgo(t: int, c: Clock, strftime: (string, int) -> string, pluralize: (string, int) -> string): (r: string)
    ensures t > c.today ==> r == Humanize(c.now - t, pluralize) + " ago"
    ensures c.yesterday < t <= c.today ==> r == "Yesterday at " + strftime("%_I:%M:%S%P", t)
  {
    match AgoStyleOf(t, c)
    case Today => Humanize(c.now - t, pluralize) + " ago"
    case Yesterday => "Yesterday at " + strftime(AgoFormat(TimeOnly), t)
    case Dated(s) => strftime(AgoFormat(s), t)
  }

  /** Before yesterday's midnight time_ago follows relative_date's cascade, with seconds and
      without the blank-padded hour. */
  lemma TimeAgoFollowsRelativeDate(t: int, c: Clock, strftime: (string, int) -> string, pluralize: (string, int) -> string)
    requires c.yesterday <= c.today
    requires t <= c.yesterday
    ensures AgoStyleOf(t, c) == Dated(RelativeStyle(t, c))
    ensures RelativeStyle(t, c) != TimeOnly
    ensures TimeAgo(t, c, strftime, pluralize) == strftime(AgoFormat(RelativeStyle(t, c)), t)
  {
  }

  /** Within today time_ago spells out the time since the timestamp; the text is " ago" alone
      only when less than a second has passed. */
  lemma TimeAgoToday(t: int, c: Clock, strftime: (string, int) -> string, pluralize: (string, int) -> string)
    requires t > c.today && c.now >= t
    ensures TimeAgo(t, c, strftime, pluralize) == " ago" <==> c.now == t
  {
    var r := TimeAgo(t, c, strftime, pluralize);
    assert r == Humanize(c.now - t, pluralize) + " ago";
    AgoAlone(c.now - t, pluralize);
  }

  lemma AgoAlone(elapsed: int, pluralize: (string, int) -> string)
    requires elapsed >= 0
    ensures Humanize(elapsed, pluralize) + " ago" == " ago" <==> elapsed == 0
  {
    var h := Humanize(elapsed, pluralize);
    HumanizeEmptyElapsed(elapsed, pluralize);
    if h + " ago" == " ago" {
      assert |h| == 0;
    }
  }
}
