/** The card that shows one skill in the list: the relative label of its next
    review date and the colours that flag an overdue, today's or tomorrow's review.
    Instants are ms since the epoch; `now` stands for each `new Date()` read while
    rendering (the source reads the clock several times; one reading is assumed). */
module SkillCard {
  import opened Numerics

  /** `Math.ceil((date - now) / day)`: whole days from now until `date`. */
  function DiffDays(date: int, now: int): int {
    CeilDays(date - now)
  }

  const TodayLabel: string := "今日"
  const TomorrowLabel: string := "明日"

  /** `formatDate`: today, tomorrow, "n日経過" for n days past, "n日後" for n days ahead. */
  function FormatDate(date: int, now: int): (text: string)
    ensures text == TodayLabel <==> DiffDays(date, now) == 0
    ensures text == TomorrowLabel <==> DiffDays(date, now) == 1
    ensures DiffDays(date, now) < 0 ==> text == NatToString(-DiffDays(date, now)) + "日経過"
    ensures DiffDays(date, now) >= 2 ==> text == NatToString(DiffDays(date, now)) + "日後"
  {
    var diffDays := DiffDays(date, now);
    if diffDays == 0 then TodayLabel
    else if diffDays == 1 then TomorrowLabel
    else if diffDays < 0 then NatToString(-diffDays) + "日経過"
    else NatToString(diffDays) + "日後"
  }

  /** Different day counts never share a label: the label tells the day count. */
  lemma FormatDateDeterminesDays(date1: int, date2: int, now: int)
    requires FormatDate(date1, now) == FormatDate(date2, now)
    ensures DiffDays(date1, now) == DiffDays(date2, now)
  {
    var d1, d2 := DiffDays(date1, now), DiffDays(date2, now);
    if d1 < 0 && d2 < 0 {
      SuffixedDigitsInjective(-d1, -d2, "日経過", "日経過");
    } else if d1 >= 2 && d2 >= 2 {
      SuffixedDigitsInjective(d1, d2, "日後", "日後");
    } else if d1 < 0 && d2 >= 2 {
      PastAndFutureLabelsDiffer(-d1, d2);
    } else if d2 < 0 && d1 >= 2 {
      PastAndFutureLabelsDiffer(-d2, d1);
    }
  }

  lemma PastAndFutureLabelsDiffer(past: nat, ahead: nat)
    ensures NatToString(past) + "日経過" != NatToString(ahead) + "日後"
  {
    var x, y := NatToString(past) + "日経過", NatToString(ahead) + "日後";
    assert x[|x| - 1] == '過' && y[|y| - 1] == '後';
  }

  /** The label reads today exactly when the date lies in the day that ends now:
      up to one day in the past, and not after now. */
  lemma TodayLabelWindow(date: int, now: int)
    ensures FormatDate(date, now) == TodayLabel <==> now - MsPerDay < date <= now
  {
    if now - MsPerDay < date <= now {
      CeilDaysUnique(date - now, 0);
    }
  }

  /** The label reads tomorrow exactly when the date lies in the day that starts
      now: after now, and at most one day after it. */
  lemma TomorrowLabelWindow(date: int, now: int)
    ensures FormatDate(date, now) == TomorrowLabel <==> now < date <= now + MsPerDay
  {
    if now < date <= now + MsPerDay {
      CeilDaysUnique(date - now, 1);
    }
  }

  /** `isOverdue`: strictly before now. An overdue date is zero or more days
      past; any other date is zero or more days ahead. */
  function IsOverdue(date: int, now: int): (overdue: bool)
    ensures overdue ==> DiffDays(date, now) <= 0
    ensures !overdue ==> DiffDays(date, now) >= 0
  {
    date < now
  }

  /** `isToday`: the label reads today, which is the day that ends now. */
  function IsToday(date: int, now: int): (today: bool)
    ensures today <==> now - MsPerDay < date <= now
  {
    TodayLabelWindow(date, now);
    FormatDate(date, now) == TodayLabel
  }

  /** `isTomorrow`: the label reads tomorrow, which is the day that starts now. */
  function IsTomorrow(date: int, now: int): (tomorrow: bool)
    ensures tomorrow <==> now < date <= now + MsPerDay
  {
    TomorrowLabelWindow(date, now);
    FormatDate(date, now) == TomorrowLabel
  }

  datatype CardStyle = CardStyle(backgroundColor: string, borderColor: string)

  const OverdueStyle := CardStyle("#ffebee", "#f44336")
  const TodayStyle := CardStyle("#fff3e0", "#ff9800")
  const TomorrowStyle := CardStyle("#f3e5f5", "#9c27b0")
  const DefaultStyle := CardStyle("var(--color-background)", "#e0e0e0")

  /** `getCardStyle`: overdue wins over today, today over tomorrow, otherwise the
      default colours. */
  function GetCardStyle(date: int, now: int): (style: CardStyle)
    ensures style == OverdueStyle <==> IsOverdue(date, now)
    ensures style == TodayStyle <==> !IsOverdue(date, now) && IsToday(date, now)
    ensures style == TomorrowStyle <==> !IsOverdue(date, now) && IsTomorrow(date, now)
    ensures style == DefaultStyle <==> !IsOverdue(date, now) && !IsToday(date, now) && !IsTomorrow(date, now)
  {
    if IsOverdue(date, now) then OverdueStyle
    else if IsToday(date, now) then TodayStyle
    else if IsTomorrow(date, now) then TomorrowStyle
    else DefaultStyle
  }

  /** The colour of the date text: red when overdue, orange when today. */
  function DateTextColor(date: int, now: int): (color: string)
    ensures color == GetCardStyle(date, now).borderColor || color == "var(--color-text)"
    ensures color == "#f44336" <==> IsOverdue(date, now)
    ensures color == "#ff9800" <==> !IsOverdue(date, now) && IsToday(date, now)
    ensures color == "var(--color-text)" <==> !IsOverdue(date, now) && !IsToday(date, now)
  {
    if IsOverdue(date, now) then "#f44336"
    else if IsToday(date, now) then "#ff9800"
    else "var(--color-text)"
  }

  /** Overdue is strict: a review due exactly now is styled as today's. */
  lemma DueNowIsToday(now: int)
    ensures !IsOverdue(now, now) && GetCardStyle(now, now) == TodayStyle
  {
    TodayLabelWindow(now, now);
  }

  /** A date less than a day in the past is labelled today but styled overdue. */
  lemma RecentPastLabelledTodayStyledOverdue(date: int, now: int)
    requires now - MsPerDay < date < now
    ensures FormatDate(date, now) == TodayLabel
    ensures GetCardStyle(date, now) == OverdueStyle
  {
    TodayLabelWindow(date, now);
  }

  /** A date in the next day is styled as today's or tomorrow's, never the default. */
  lemma NextDayIsHighlighted(date: int, now: int)
    requires now <= date <= now + MsPerDay
    ensures GetCardStyle(date, now) == TodayStyle || GetCardStyle(date, now) == TomorrowStyle
  {
    if date == now {
      TodayLabelWindow(date, now);
    } else {
      CeilDaysUnique(date - now, 1);
    }
  }
}
