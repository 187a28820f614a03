/** The display helpers of the oath pages: deadline urgency, the time-remaining text,
    the completion streak and the oath-type label. Instants are integer milliseconds and
    the clock reading `now` is a parameter. */
module OathUtils {
  import opened Text
  import opened Schema

  const SecondMs: int := 1000
  const MinuteMs: int := 60000
  const HourMs: int := 3600000
  const DayMs: int := 86400000

  datatype StatusType = Safe | Moderate | AtRisk

  /** The badge `getDeadlineStatus` returns. */
  datatype TimeStatus = TimeStatus(status: StatusType, color: string, bgColor: string, labelText: string)

  /** The colours `getDeadlineColorByType` returns. */
  datatype Tint = Tint(status: StatusType, color: string, bgColor: string)

  /** How urgent a status is: a later deadline never ranks lower. */
  function Rank(s: StatusType): nat {
    match s
    case AtRisk => 0
    case Moderate => 1
    case Safe => 2
  }

  function TextColor(s: StatusType): string {
    match s
    case Safe => "text-success"
    case Moderate => "text-warning"
    case AtRisk => "text-danger"
  }

  function FillColor(s: StatusType): string {
    match s
    case Safe => "bg-success"
    case Moderate => "bg-warning"
    case AtRisk => "bg-danger"
  }

  function Label(s: StatusType): string {
    match s
    case Safe => "Your status: Safe"
    case Moderate => "Your status: Moderate"
    case AtRisk => "Your status: At Risk"
  }

  /** The status for a number of hours left, against the two thresholds in hours. */
  function Classify(hours: real, safeAbove: real, moderateAbove: real): StatusType {
    if hours > safeAbove then Safe else if hours > moderateAbove then Moderate else AtRisk
  }

  /** `getDeadlineStatus`: more than 6 hours left is safe, more than 2 moderate, the rest at risk. */
  function DeadlineStatus(deadline: int, now: int): (r: TimeStatus)
    ensures r.status == Safe <==> deadline - now > 6 * HourMs
    ensures r.status == Moderate <==> 2 * HourMs < deadline - now <= 6 * HourMs
    ensures r.status == AtRisk <==> deadline - now <= 2 * HourMs
    ensures r.color == TextColor(r.status) && r.bgColor == FillColor(r.status) + "/20" && r.labelText == Label(r.status)
  {
    var hours := (deadline - now) as real / HourMs as real;
    var s := Classify(hours, 6.0, 2.0);
    TimeStatus(s, TextColor(s), FillColor(s) + "/20", Label(s))
  }

  /** Moving the deadline later never makes the status more urgent. */
  lemma DeadlineStatusMonotone(d1: int, d2: int, now: int)
    requires d1 <= d2
    ensures Rank(DeadlineStatus(d1, now).status) <= Rank(DeadlineStatus(d2, now).status)
  {
  }

  /** `getDeadlineColorByType`: a DAILY oath is always at risk, a WEEKLY one is judged in
      days (more than 4 safe, more than 2 moderate), any other in hours as `getDeadlineStatus`. */
  function DeadlineColorByType(deadline: int, oathType: OathType, now: int): (r: Tint)
    ensures oathType == DAILY ==> r.status == AtRisk
    ensures oathType == WEEKLY ==>
      (r.status == Safe <==> deadline - now > 4 * DayMs) &&
      (r.status == AtRisk <==> deadline - now <= 2 * DayMs)
    ensures oathType == CUSTOM ==>
      var b := DeadlineStatus(deadline, now);
      r.status == b.status && r.color == b.color && r.bgColor + "/20" == b.bgColor
    ensures r.color == TextColor(r.status) && r.bgColor == FillColor(r.status)
  {
    var hours := (deadline - now) as real / HourMs as real;
    var days := hours / 24.0;
    var s := match oathType
      case DAILY => AtRisk
      case WEEKLY => Classify(days, 4.0, 2.0)
      case CUSTOM => Classify(hours, 6.0, 2.0);
    Tint(s, TextColor(s), FillColor(s))
  }

  /** For every oath type a later deadline is never more urgent. */
  lemma DeadlineColorMonotone(d1: int, d2: int, oathType: OathType, now: int)
    requires d1 <= d2
    ensures Rank(DeadlineColorByType(d1, oathType, now).status) <= Rank(DeadlineColorByType(d2, oathType, now).status)
  {
  }

  /** The time left, split into the two units `formatTimeRemaining` shows. */
  datatype Remaining =
    | Overdue
    | DaysHours(days: nat, hours: nat)
    | HoursMinutes(hours: nat, minutes: nat)
    | MinutesSeconds(minutes: nat, seconds: nat)

  /** More than 24 whole hours are shown as days and hours, at least one hour as hours and
      minutes, less as minutes and seconds; each pair is the time left rounded down to its
      smaller unit. */
  function Breakdown(diff: int): (r: Remaining)
    ensures r.Overdue? <==> diff < 0
    ensures r.DaysHours? <==> diff >= 25 * HourMs
    ensures r.DaysHours? ==>
      r.hours < 24 && (r.days * 24 + r.hours) * HourMs <= diff < (r.days * 24 + r.hours + 1) * HourMs
    ensures r.HoursMinutes? ==>
      1 <= r.hours <= 24 && r.minutes < 60 &&
      r.hours * HourMs + r.minutes * MinuteMs <= diff < r.hours * HourMs + (r.minutes + 1) * MinuteMs
    ensures r.MinutesSeconds? ==>
      r.minutes < 60 && r.seconds < 60 &&
      r.minutes * MinuteMs + r.seconds * SecondMs <= diff < r.minutes * MinuteMs + (r.seconds + 1) * SecondMs
  {
    if diff < 0 then Overdue
    else
      var hours := diff / HourMs;
      var minutes := (diff % HourMs) / MinuteMs;
      var seconds := (diff % MinuteMs) / SecondMs;
      assert diff == hours * HourMs + minutes * MinuteMs + (diff % HourMs) % MinuteMs;
      assert (diff % HourMs) % MinuteMs == diff % MinuteMs;
      if hours > 24 then DaysHours(hours / 24, hours % 24)
      else if hours > 0 then HoursMinutes(hours, minutes)
      else MinutesSeconds(minutes, seconds)
  }

  function Render(r: Remaining): string {
    match r
    case Overdue => "Overdue"
    case DaysHours(d, h) => NatToString(d) + "d " + NatToString(h) + "h"
    case HoursMinutes(h, m) => NatToString(h) + "h " + NatToString(m) + "m"
    case MinutesSeconds(m, s) => NatToString(m) + "m " + NatToString(s) + "s"
  }

  /** `formatTimeRemaining`. */
  function FormatTimeRemaining(deadline: int, now: int): string {
    Render(Breakdown(deadline - now))
  }

  /** The larger of the two units shown. */
  function Lead(r: Remaining): nat {
    match r
    case Overdue => 0
    case DaysHours(d, _) => d
    case HoursMinutes(h, _) => h
    case MinutesSeconds(m, _) => m
  }

  /** The text says "Overdue" exactly when the deadline has passed; otherwise it starts
      with the larger unit's count, which `parseInt` reads back. */
  lemma FormatTimeRemainingReadsBack(deadline: int, now: int)
    ensures var r := Breakdown(deadline - now);
      (FormatTimeRemaining(deadline, now) == "Overdue" <==> deadline < now) &&
      (deadline >= now ==> ParseInt(FormatTimeRemaining(deadline, now)) == Finite(Lead(r)))
  {
    var r := Breakdown(deadline - now);
    var t := FormatTimeRemaining(deadline, now);
    match r
    case Overdue =>
    case DaysHours(d, h) =>
      assert t == NatToString(d) + ("d " + NatToString(h) + "h");
      ParseIntOfLeadingNat(d, "d " + NatToString(h) + "h");
      assert t[0] != 'O';
    case HoursMinutes(h, m) =>
      assert t == NatToString(h) + ("h " + NatToString(m) + "m");
      ParseIntOfLeadingNat(h, "h " + NatToString(m) + "m");
      assert t[0] != 'O';
    case MinutesSeconds(m, s) =>
      assert t == NatToString(m) + ("m " + NatToString(s) + "s");
      ParseIntOfLeadingNat(m, "m " + NatToString(s) + "s");
      assert t[0] != 'O';
  }

  /** A check-in as the streak sees it: its due day as a local day number, and its status. */
  datatype Dated = Dated(day: int, status: CheckInStatus)

  /** The due days of the complete check-ins, in input order. */
  function CompleteDays(cs: seq<Dated>): (r: seq<int>)
    ensures |r| <= |cs|
    ensures forall x :: x in r <==> exists c :: c in cs && c.day == x && IsComplete(c.status)
  {
    if cs == [] then []
    else
      assert forall c :: c in cs <==> c == cs[0] || c in cs[1..];
      (if IsComplete(cs[0].status) then [cs[0].day] else []) + CompleteDays(cs[1..])
  }

  predicate Descending(s: seq<int>) {
    forall i, j :: 0 <= i < j < |s| ==> s[i] >= s[j]
  }

  /** Place `x` into a descending sequence. */
  function Insert(x: int, s: seq<int>): (r: seq<int>)
    requires Descending(s)
    ensures Descending(r) && multiset(r) == multiset(s) + multiset{x}
    ensures forall y :: y in r ==> y in s || y == x
  {
    if s == [] || x >= s[0] then
      [x] + s
    else
      var t := Insert(x, s[1..]);
      InsertStep(x, s, t);
      [s[0]] + t
  }

  lemma InsertStep(x: int, s: seq<int>, t: seq<int>)
    requires Descending(s) && s != [] && x < s[0]
    requires Descending(t) && multiset(t) == multiset(s[1..]) + multiset{x}
    requires forall y :: y in t ==> y in s[1..] || y == x
    ensures Descending([s[0]] + t) && multiset([s[0]] + t) == multiset(s) + multiset{x}
    ensures forall y :: y in [s[0]] + t ==> y in s || y == x
  {
    assert s == [s[0]] + s[1..];
    var r := [s[0]] + t;
    forall i, j | 0 <= i < j < |r| ensures r[i] >= r[j] {
      if i == 0 {
        assert r[j] == t[j - 1] && t[j - 1] in t;
      } else {
        assert r[i] == t[i - 1] && r[j] == t[j - 1];
      }
    }
  }

  /** The sort by due date, latest first. */
  function SortDesc(s: seq<int>): (r: seq<int>)
    ensures Descending(r) && multiset(r) == multiset(s) && |r| == |s|
  {
    if s == [] then []
    else
      assert s == [s[0]] + s[1..];
      Insert(s[0], SortDesc(s[1..]))
  }

  /** The streak as `calculateStreak` counts it on the sorted days: one for each leading
      day equal to the next expected day, starting from `expected` and going back a day at a time. */
  function Streak(days: seq<int>, expected: int): nat {
    if days == [] || days[0] != expected then 0 else 1 + Streak(days[1..], expected - 1)
  }

  /** `calculateStreak`, with `today` the local day number of the clock reading. */
  method CalculateStreak(checkIns: seq<Dated>, today: int) returns (streak: nat)
    ensures streak == Streak(SortDesc(CompleteDays(checkIns)), today)
    ensures streak <= |CompleteDays(checkIns)|
  {
    var sorted := SortDesc(CompleteDays(checkIns));
    StreakBound(sorted, today);
    streak := 0;
    var expected := today;
    var i := 0;
    while i < |sorted|
      invariant 0 <= i <= |sorted| && streak == i && expected == today - i
      invariant Streak(sorted, today) == i + Streak(sorted[i..], expected)
    {
      StreakStep(sorted, i, expected);
      if sorted[i] == expected {
        streak := streak + 1;
        expected := expected - 1;
        i := i + 1;
      } else {
        break;
      }
    }
    if i == |sorted| {
      assert sorted[i..] == [];
    }
  }

  /** The one step of the loop: the day at `i` either continues the run or ends it. */
  lemma StreakStep(days: seq<int>, i: nat, expected: int)
    requires i < |days|
    ensures Streak(days[i..], expected) == if days[i] == expected then 1 + Streak(days[i + 1..], expected - 1) else 0
  {
    assert days[i..][0] == days[i];
    assert days[i..][1..] == days[i + 1..];
  }

  lemma {:induction false} StreakBound(days: seq<int>, expected: int)
    ensures Streak(days, expected) <= |days|
  {
    if days != [] && days[0] == expected {
      StreakBound(days[1..], expected - 1);
    }
  }

  /** The streak is the length of the run of consecutive days, each one before the last,
      at the front of the sorted days, and it stops at the first day that breaks the run. */
  lemma {:induction false} StreakIsRun(days: seq<int>, expected: int)
    ensures var n := Streak(days, expected);
      n <= |days| && (forall i :: 0 <= i < n ==> days[i] == expected - i) &&
      (n < |days| ==> days[n] != expected - n)
  {
    if days != [] && days[0] == expected {
      StreakIsRun(days[1..], expected - 1);
      var n := Streak(days, expected);
      forall i | 0 <= i < n ensures days[i] == expected - i {
        if i > 0 {
          assert days[i] == days[1..][i - 1];
        }
      }
    }
  }

  /** No complete check-in due today means no streak. */
  lemma StreakNeedsToday(checkIns: seq<Dated>, today: int)
    requires forall i :: 0 <= i < |checkIns| && IsComplete(checkIns[i].status) ==> checkIns[i].day != today
    ensures Streak(SortDesc(CompleteDays(checkIns)), today) == 0
  {
    var sorted := SortDesc(CompleteDays(checkIns));
    if sorted != [] {
      assert sorted[0] in multiset(sorted);
      assert sorted[0] in CompleteDays(checkIns);
    }
  }

  /** Two complete check-ins due today and one due yesterday: two consecutive days are
      covered, yet the repeated day ends the count at one. */
  lemma StreakStopsAtRepeatedDay(today: int)
    ensures var cs := [Dated(today, VERIFIED_COMPLETE), Dated(today, VERIFIED_COMPLETE), Dated(today - 1, VERIFIED_COMPLETE)];
      Streak(SortDesc(CompleteDays(cs)), today) == 1 &&
      DayRun(CompleteDays(cs), today) == 2
  {
    var cs := [Dated(today, VERIFIED_COMPLETE), Dated(today, VERIFIED_COMPLETE), Dated(today - 1, VERIFIED_COMPLETE)];
    var days := [today, today, today - 1];
    CompleteDaysOfThree(cs);
    SortDescOfThree(today);
    assert SortDesc(days)[1..] == [today, today - 1];
    assert today in days && today - 1 in days && today - 2 !in days;
    DayRunIsRun(days, today, 2);
  }

  /** A complete check-in due tomorrow sorts first and ends the count at once, although
      today itself is covered. */
  lemma StreakStopsAtFutureDay(today: int)
    ensures var cs := [Dated(today + 1, VERIFIED_COMPLETE), Dated(today, VERIFIED_COMPLETE)];
      Streak(SortDesc(CompleteDays(cs)), today) == 0 &&
      DayRun(CompleteDays(cs), today) == 1
  {
    var cs := [Dated(today + 1, VERIFIED_COMPLETE), Dated(today, VERIFIED_COMPLETE)];
    var days := [today + 1, today];
    assert cs[1..][1..] == [];
    assert CompleteDays(cs[1..]) == [today];
    assert CompleteDays(cs) == days;
    assert days[1..] == [today] && [today][1..] == [];
    assert SortDesc([today]) == [today];
    assert Insert(today + 1, [today]) == days;
    assert SortDesc(days) == days;
    assert today in days && today - 1 !in days;
    DayRunIsRun(days, today, 1);
  }

  lemma CompleteDaysOfThree(cs: seq<Dated>)
    requires |cs| == 3 && IsComplete(cs[0].status) && IsComplete(cs[1].status) && IsComplete(cs[2].status)
    ensures CompleteDays(cs) == [cs[0].day, cs[1].day, cs[2].day]
  {
    var t := cs[1..][1..];
    assert t[1..] == [];
    assert CompleteDays(t) == [cs[2].day];
    assert CompleteDays(cs[1..]) == [cs[1].day, cs[2].day];
  }

  lemma SortDescOfThree(a: int)
    ensures SortDesc([a, a, a - 1]) == [a, a, a - 1]
  {
    var days := [a, a, a - 1];
    assert days[1..] == [a, a - 1];
    assert days[1..][1..] == [a - 1];
    assert [a - 1][1..] == [];
    assert SortDesc([a - 1]) == [a - 1];
    assert Insert(a, [a - 1]) == [a, a - 1];
    assert SortDesc([a, a - 1]) == [a, a - 1];
    assert Insert(a, [a, a - 1]) == [a, a, a - 1];
  }

  /** The lowest of a non-empty sequence of days. */
  function Least(days: seq<int>): (m: int)
    requires days != []
    ensures forall x :: x in days ==> m <= x
  {
    if |days| == 1 then days[0]
    else
      var m := Least(days[1..]);
      assert forall x :: x in days ==> x == days[0] || x in days[1..];
      if days[0] < m then days[0] else m
  }

  /** The evidently intended streak: the number of consecutive days, today and back, on
      which some complete check-in is due. */
  function DayRun(days: seq<int>, today: int): (n: nat)
    ensures forall x :: today - n < x <= today ==> x in days
    ensures today - n !in days
    decreases if days == [] then 0 else today - Least(days) + 1
  {
    if today !in days then 0
    else
      var m := DayRun(days, today - 1);
      forall x | today - (1 + m) < x <= today ensures x in days {
        if x < today {
          assert (today - 1) - m < x <= today - 1;
        }
      }
      1 + m
  }

  /** The run length is the one number `n` with every day from today back `n - 1` days
      covered and the day before uncovered. */
  lemma DayRunIsRun(days: seq<int>, today: int, n: nat)
    requires forall x :: today - n < x <= today ==> x in days
    requires today - n !in days
    ensures DayRun(days, today) == n
  {
  }

  /** `calculateStreak` corrected: a further check-in on a day already counted, or one due
      after today, is passed over instead of ending the count. */
  method CalculateDayStreak(checkIns: seq<Dated>, today: int) returns (streak: nat)
    ensures streak == DayRun(CompleteDays(checkIns), today)
  {
    var days := CompleteDays(checkIns);
    var sorted := SortDesc(days);
    streak := 0;
    var expected := today;
    var i := 0;
    while i < |sorted|
      invariant 0 <= i <= |sorted| && expected == today - streak
      invariant forall x :: expected < x <= today ==> x in sorted
      invariant forall j :: 0 <= j < i ==> sorted[j] > expected
    {
      if sorted[i] == expected {
        streak := streak + 1;
        expected := expected - 1;
      } else if sorted[i] < expected {
        break;
      }
      i := i + 1;
    }
    DayRunOfSorted(days, sorted, today, streak);
  }

  /** The run can be read off any arrangement of the same days. */
  lemma DayRunOfSorted(days: seq<int>, sorted: seq<int>, today: int, n: nat)
    requires multiset(sorted) == multiset(days)
    requires forall x :: today - n < x <= today ==> x in sorted
    requires today - n !in sorted
    ensures DayRun(days, today) == n
  {
    forall x | today - n < x <= today ensures x in days {
      assert x in sorted;
      assert x in multiset(sorted);
    }
    assert today - n !in multiset(sorted);
    DayRunIsRun(days, today, n);
  }

  /** `formatOathType`: the label of a known type name; any other text is returned as it is. */
  function FormatOathType(t: string): (r: string)
    ensures t != "DAILY" && t != "WEEKLY" && t != "CUSTOM" ==> r == t
  {
    if t == "DAILY" then "Daily Recurring"
    else if t == "WEEKLY" then "Weekly Recurring"
    else if t == "CUSTOM" then "Custom"
    else t
  }

  function TypeName(t: OathType): string {
    match t
    case DAILY => "DAILY"
    case WEEKLY => "WEEKLY"
    case CUSTOM => "CUSTOM"
  }

  /** Labelling a label changes nothing, and the three types get three distinct labels,
      none of them a type name. */
  lemma FormatOathTypeLabels(t: string, a: OathType, b: OathType)
    ensures FormatOathType(FormatOathType(t)) == FormatOathType(t)
    ensures FormatOathType(TypeName(a)) == FormatOathType(TypeName(b)) ==> a == b
    ensures FormatOathType(TypeName(a)) !in {"DAILY", "WEEKLY", "CUSTOM"}
  {
  }
}
