/** The display arithmetic of a result card (`src/app/_components/RouteCard.tsx`):
    the today/tomorrow badge, the wait text, clock-face formatting and the
    day label next to the arrival time. All minute counts come from
    `timeToMinutesLocal`, which on digit fields is `TimeToMinutes`. */
module RouteCard {
  import opened Common
  import opened Records
  import opened TimeText

  /** `isRouteToday`: a departure in an extended hour is never today;
      otherwise it is today iff it is not earlier than now. */
  predicate IsRouteToday(currentTime: string, departureTime: string)
    requires Parseable(currentTime) && Parseable(departureTime)
  {
    HoursOf(departureTime) < 24 && TimeToMinutes(departureTime) >= TimeToMinutes(currentTime)
  }

  /** `formatTimeDisplay`: the hour folded onto the clock face and padded,
      then the minute field verbatim; anything after it is dropped. */
  function FormatTimeDisplay(t: string): (r: string)
    requires Parseable(t)
    ensures Split(r, ':') == [Pad2(HoursOf(t) % 24), Split(t, ':')[1]]
    ensures Parseable(r) && HoursOf(r) == HoursOf(t) % 24 && MinutesOf(r) == MinutesOf(t)
    ensures TimeToMinutes(r) == NormalizedTimeToMinutes(t)
  {
    var hh := Pad2(HoursOf(t) % 24);
    var mm := Split(t, ':')[1];
    DigitsExclude(hh, ':');
    var pieces := [hh, mm];
    assert Join(pieces[1..], ':') == mm;
    assert Join(pieces, ':') == hh + ":" + mm;
    SplitJoin(pieces, ':');
    hh + ":" + mm
  }

  /** The minutes `getWaitTime` computes. An extended-hour departure is
      rebuilt from its day count and its clock-face text (the same text
      `formatTimeDisplay` shows); a same-day departure earlier than now is
      taken to be tomorrow's. */
  function WaitMinutes(currentTime: string, departureTime: string): int
    requires Parseable(currentTime) && Parseable(departureTime)
  {
    var h := HoursOf(departureTime);
    var now := TimeToMinutes(currentTime);
    if h >= 24 then
      var w := (h / 24) * 24 * 60 + TimeToMinutes(FormatTimeDisplay(departureTime)) - now;
      if w < 0 then w + 24 * 60 else w
    else
      var d := TimeToMinutes(departureTime);
      (if d < now then d + 24 * 60 else d) - now
  }

  /** A clock-face departure waits `(dep - now) mod 1440` minutes. */
  lemma WaitSameDay(currentTime: string, departureTime: string)
    requires Parseable(currentTime) && TimeToMinutes(currentTime) < MinutesPerDay
    requires ClockTime(departureTime) && HoursOf(departureTime) < 24
    ensures WaitMinutes(currentTime, departureTime)
            == (TimeToMinutes(departureTime) - TimeToMinutes(currentTime)) % MinutesPerDay
    ensures 0 <= WaitMinutes(currentTime, departureTime) < MinutesPerDay
  {
    var d, now := TimeToMinutes(departureTime), TimeToMinutes(currentTime);
    assert d < MinutesPerDay;
    if d < now {
      assert (d - now) % MinutesPerDay == d - now + MinutesPerDay;
    } else {
      assert (d - now) % MinutesPerDay == d - now;
    }
  }

  /** For an extended-hour departure the day count and the clock-face text
      together give back the raw minutes, and the wait is the plain
      difference, always positive while now is a clock-face time. */
  lemma WaitExtended(currentTime: string, departureTime: string)
    requires Parseable(currentTime) && TimeToMinutes(currentTime) < MinutesPerDay
    requires Parseable(departureTime) && HoursOf(departureTime) >= 24
    ensures (HoursOf(departureTime) / 24) * MinutesPerDay + TimeToMinutes(FormatTimeDisplay(departureTime))
            == TimeToMinutes(departureTime)
    ensures WaitMinutes(currentTime, departureTime) == TimeToMinutes(departureTime) - TimeToMinutes(currentTime) > 0
  {
    NormalizedIsRawLessDays(departureTime);
  }

  /** On a clock-face departure the badge says "Today" exactly when the
      wait does not run past midnight. */
  lemma TodayIffNoWrap(currentTime: string, departureTime: string)
    requires Parseable(currentTime) && Parseable(departureTime) && HoursOf(departureTime) < 24
    ensures IsRouteToday(currentTime, departureTime)
            <==> WaitMinutes(currentTime, departureTime) == TimeToMinutes(departureTime) - TimeToMinutes(currentTime)
    ensures !IsRouteToday(currentTime, departureTime)
            ==> WaitMinutes(currentTime, departureTime)
                == TimeToMinutes(departureTime) + MinutesPerDay - TimeToMinutes(currentTime)
  {
  }

  // ---------------------------------------------------------------------
  // the wait text

  /** `n.toString()` for any integer: a minus sign exactly for a negative
      number, then canonical digits reading back as its magnitude. */
  function IntToDecimal(n: int): (s: string)
    ensures |s| > 0 && (s[0] == '-' <==> n < 0)
    ensures var digits := if n < 0 then s[1..] else s;
      IsDigits(digits) && DecimalValue(digits) == (if n < 0 then -n else n)
      && (digits[0] == '0' ==> digits == "0")
    ensures n >= 0 ==> s == NatToDecimal(n)
  {
    if n < 0 then "-" + NatToDecimal(-n) else NatToDecimal(n)
  }

  /** `w % 60` with JavaScript's `%`, whose result takes the sign of the
      dividend. */
  function MinutesPart(w: int): (r: int)
    ensures -60 < r < 60 && (w - r) % 60 == 0
    ensures w >= 0 ==> r == w % 60
    ensures w < 0 ==> r <= 0
  {
    if w >= 0 then w % 60 else -((-w) % 60)
  }

  /** The text of lines 56-63: whole hours (`Math.floor`) only when there is
      at least one, then the remaining minutes. */
  function WaitText(w: int): string {
    var hours := w / 60;
    var minutes := MinutesPart(w);
    if hours > 0
    then "in " + IntToDecimal(hours) + "h " + IntToDecimal(minutes) + "m"
    else "in " + IntToDecimal(minutes) + "m"
  }

  /** Reads a wait text back: `in Ym` or `in Xh Ym`. */
  function ParseWait(s: string): Option<int> {
    if |s| >= 4 && s[..3] == "in " && s[|s| - 1] == 'm' then ParseWaitParts(Split(s[3..|s| - 1], 'h')) else None
  }

  /** The text between "in " and "m", cut at the 'h'. */
  function ParseWaitParts(parts: seq<string>): Option<int> {
    if |parts| == 1 && IsDigits(parts[0]) then Some(DecimalValue(parts[0]))
    else if |parts| == 2 && IsDigits(parts[0]) && |parts[1]| >= 1 && parts[1][0] == ' '
            && IsDigits(parts[1][1..])
    then Some(60 * DecimalValue(parts[0]) + DecimalValue(parts[1][1..]))
    else None
  }

  lemma StripFrame(body: string)
    ensures ParseWait("in " + body + "m") == ParseWaitParts(Split(body, 'h'))
  {
    var s := "in " + body + "m";
    assert s[..3] == "in " && s[3..|s| - 1] == body;
  }

  lemma BodyMinutes(mm: string)
    requires IsDigits(mm)
    ensures ParseWaitParts(Split(mm, 'h')) == Some(DecimalValue(mm))
  {
    DigitsExclude(mm, 'h');
    SplitNoSeparator(mm, 'h');
  }

  lemma HoursParts(hh: string, tail: string)
    requires IsDigits(hh) && |tail| >= 1 && tail[0] == ' ' && IsDigits(tail[1..])
    ensures ParseWaitParts([hh, tail]) == Some(60 * DecimalValue(hh) + DecimalValue(tail[1..]))
  {
  }

  lemma SplitHours(hh: string, mm: string)
    requires IsDigits(hh) && IsDigits(mm)
    ensures Split(hh + "h " + mm, 'h') == [hh, [' '] + mm]
  {
    var tail := [' '] + mm;
    assert hh + "h " + mm == hh + ['h'] + tail;
    DigitsExclude(hh, 'h');
    DigitsExclude(mm, 'h');
    assert 'h' !in tail;
    SplitAfterPiece(hh, 'h', tail);
    SplitNoSeparator(tail, 'h');
  }

  /** The wait text of a non-negative wait reads back as that wait: hours
      and minutes are shown in full, with the minutes under 60. */
  lemma WaitTextRoundTrip(w: nat)
    ensures ParseWait(WaitText(w)) == Some(w)
  {
    var hh, mm := NatToDecimal(w / 60), NatToDecimal(w % 60);
    if w / 60 > 0 {
      WaitTextWithHours(w);
      StripFrame(hh + "h " + mm);
      SplitHours(hh, mm);
      var tail := [' '] + mm;
      assert tail[1..] == mm;
      HoursParts(hh, tail);
    } else {
      assert IntToDecimal(MinutesPart(w)) == mm;
      assert WaitText(w) == "in " + mm + "m";
      StripFrame(mm);
      BodyMinutes(mm);
    }
  }

  /** The exact shape of the wait text: an hours piece appears exactly when
      the wait is at least an hour, and each piece is the canonical decimal
      of the whole hours and of the remaining minutes. */
  lemma WaitTextFormat(w: nat)
    ensures ('h' in WaitText(w)) <==> w >= 60
    ensures var t := WaitText(w);
      && |t| >= 4 && t[..3] == "in " && t[|t| - 1] == 'm'
      && Split(t[3..|t| - 1], 'h')
         == if w >= 60 then [NatToDecimal(w / 60), " " + NatToDecimal(w % 60)] else [NatToDecimal(w)]
  {
    if w >= 60 {
      WaitTextHours(w);
    } else {
      WaitTextMinutes(w);
    }
  }

  lemma WaitTextHours(w: nat)
    requires w >= 60
    ensures 'h' in WaitText(w)
    ensures var t := WaitText(w);
      && |t| >= 4 && t[..3] == "in " && t[|t| - 1] == 'm'
      && Split(t[3..|t| - 1], 'h') == [NatToDecimal(w / 60), " " + NatToDecimal(w % 60)]
  {
    var hh, mm := NatToDecimal(w / 60), NatToDecimal(w % 60);
    WaitTextWithHours(w);
    var t := "in " + (hh + "h " + mm) + "m";
    assert t[3 + |hh|] == 'h';
    assert t[3..|t| - 1] == hh + "h " + mm;
    SplitHours(hh, mm);
  }

  lemma WaitTextWithHours(w: nat)
    requires w >= 60
    ensures WaitText(w) == "in " + (NatToDecimal(w / 60) + "h " + NatToDecimal(w % 60)) + "m"
  {
    var hh, mm := IntToDecimal(w / 60), IntToDecimal(MinutesPart(w));
    assert hh == NatToDecimal(w / 60);
    assert mm == NatToDecimal(w % 60);
    assert WaitText(w) == "in " + hh + "h " + mm + "m";
  }

  lemma WaitTextMinutes(w: nat)
    requires w < 60
    ensures 'h' !in WaitText(w)
    ensures var t := WaitText(w);
      && |t| >= 4 && t[..3] == "in " && t[|t| - 1] == 'm'
      && Split(t[3..|t| - 1], 'h') == [NatToDecimal(w)]
  {
    var mm := NatToDecimal(w);
    assert w / 60 == 0 && MinutesPart(w) == w;
    assert IntToDecimal(MinutesPart(w)) == mm;
    var t := WaitText(w);
    assert t == "in " + mm + "m";
    DigitsExclude(mm, 'h');
    assert 'h' !in t by {
      assert 'h' !in "in " && 'h' !in "m";
      assert t == "in " + mm + "m";
    }
    assert t[3..|t| - 1] == mm;
    SplitNoSeparator(mm, 'h');
  }

  // ---------------------------------------------------------------------
  // the arrival label

  /** The label `determineArrivalDay` renders next to the arrival time. */
  datatype DayLabel = NoLabel | NextDay | PlusDays(days: int)

  function LabelText(l: DayLabel): Option<string> {
    match l
    case NoLabel => None
    case NextDay => Some("(next day)")
    case PlusDays(n) => Some("(+" + IntToDecimal(n) + " days)")
  }

  function DetermineArrivalDay(currentTime: string, departureTime: string, arrivalTime: string): DayLabel
    requires Parseable(currentTime) && Parseable(departureTime) && Parseable(arrivalTime)
  {
    var depHour, arrHour := HoursOf(departureTime), HoursOf(arrivalTime);
    if depHour >= 24 then
      var depDays, arrDays := depHour / 24, arrHour / 24;
      if arrDays > depDays then PlusDays(arrDays - depDays + 1) else NextDay
    else if arrHour >= 24 then NextDay
    else
      var dep, arr := TimeToMinutes(departureTime), TimeToMinutes(arrivalTime);
      if arr < dep && dep - arr > 60 then
        (if IsRouteToday(currentTime, departureTime) then NextDay else PlusDays(2))
      else if !IsRouteToday(currentTime, departureTime) then NextDay
      else NoLabel
  }

  /** No label is shown exactly for a departure today whose arrival is a
      clock-face time not more than an hour before it. */
  lemma NoLabelIff(currentTime: string, departureTime: string, arrivalTime: string)
    requires Parseable(currentTime) && Parseable(departureTime) && Parseable(arrivalTime)
    ensures DetermineArrivalDay(currentTime, departureTime, arrivalTime) == NoLabel
      <==> && IsRouteToday(currentTime, departureTime)
           && HoursOf(arrivalTime) < 24
           && !(TimeToMinutes(arrivalTime) < TimeToMinutes(departureTime)
                && TimeToMinutes(departureTime) - TimeToMinutes(arrivalTime) > 60)
  {
  }

  /** The arrival never looks earlier than the departure: whenever the
      departure is not today, the arrival carries a label, and a day count
      is at least two. */
  lemma LabelNotEarlierThanDeparture(currentTime: string, departureTime: string, arrivalTime: string)
    requires Parseable(currentTime) && Parseable(departureTime) && Parseable(arrivalTime)
    ensures !IsRouteToday(currentTime, departureTime)
            ==> DetermineArrivalDay(currentTime, departureTime, arrivalTime) != NoLabel
    ensures DetermineArrivalDay(currentTime, departureTime, arrivalTime).PlusDays?
            ==> DetermineArrivalDay(currentTime, departureTime, arrivalTime).days >= 2
  {
  }

  /** With an extended-hour departure the label counts the whole days the
      arrival lies beyond the departure's day. */
  lemma ExtendedDepartureLabel(currentTime: string, departureTime: string, arrivalTime: string)
    requires Parseable(currentTime) && Parseable(departureTime) && Parseable(arrivalTime)
    requires HoursOf(departureTime) >= 24
    ensures var l := DetermineArrivalDay(currentTime, departureTime, arrivalTime);
      && l != NoLabel
      && (DayOffset(arrivalTime) > DayOffset(departureTime)
          <==> l == PlusDays(DayOffset(arrivalTime) - DayOffset(departureTime) + 1))
      && (DayOffset(arrivalTime) <= DayOffset(departureTime) ==> l == NextDay)
  {
  }

  /** With a clock-face departure: an extended-hour arrival is the next
      day; an arrival more than an hour earlier on the clock wrapped past
      midnight, which is the next day for a departure today and two days on
      for one tomorrow; otherwise the label is "(next day)" exactly when the
      departure is not today. */
  lemma ClockDepartureLabel(currentTime: string, departureTime: string, arrivalTime: string)
    requires Parseable(currentTime) && Parseable(departureTime) && Parseable(arrivalTime)
    requires HoursOf(departureTime) < 24
    ensures var l := DetermineArrivalDay(currentTime, departureTime, arrivalTime);
      var dep, arr := TimeToMinutes(departureTime), TimeToMinutes(arrivalTime);
      var today := IsRouteToday(currentTime, departureTime);
      && (HoursOf(arrivalTime) >= 24 ==> l == NextDay)
      && (HoursOf(arrivalTime) < 24 && arr < dep && dep - arr > 60
          ==> l == if today then NextDay else PlusDays(2))
      && (HoursOf(arrivalTime) < 24 && !(arr < dep && dep - arr > 60)
          ==> (l == NextDay <==> !today) && (l == NoLabel <==> today))
  {
  }

  // ---------------------------------------------------------------------
  // the card

  datatype Badge = Today | Tomorrow

  /** What the card shows, field by field. */
  datatype CardView = CardView(
    routeName: Option<string>,
    tripName: Option<string>,
    badge: Badge,
    wait: string,
    departure: string,
    departureNextDay: bool,
    arrival: string,
    arrivalLabel: Option<string>,
    fromStopName: string,
    toStopName: string,
    duration: string)

  function RenderCard(route: DisplayRoute, currentTime: string): CardView
    requires Parseable(currentTime) && Parseable(route.departureTime) && Parseable(route.arrivalTime)
  {
    var today := IsRouteToday(currentTime, route.departureTime);
    CardView(
      route.routeName, route.tripName,
      if today then Today else Tomorrow,
      WaitText(WaitMinutes(currentTime, route.departureTime)),
      FormatTimeDisplay(route.departureTime), !today,
      FormatTimeDisplay(route.arrivalTime),
      LabelText(DetermineArrivalDay(currentTime, route.departureTime, route.arrivalTime)),
      route.fromStopName, route.toStopName, route.duration)
  }

  /** The card is self-consistent: the "(next day)" marker on the departure
      appears exactly when the badge says "Tomorrow", in which case the
      arrival is labelled too; both times are clock-face text. */
  lemma CardConsistent(route: DisplayRoute, currentTime: string)
    requires Parseable(currentTime) && Parseable(route.departureTime) && Parseable(route.arrivalTime)
    ensures var v := RenderCard(route, currentTime);
      && (v.badge == Tomorrow <==> v.departureNextDay)
      && (v.departureNextDay ==> v.arrivalLabel.Some?)
      && HoursOf(v.departure) < 24 && HoursOf(v.arrival) < 24
      && TimeToMinutes(v.departure) == NormalizedTimeToMinutes(route.departureTime)
      && TimeToMinutes(v.arrival) == NormalizedTimeToMinutes(route.arrivalTime)
  {
    LabelNotEarlierThanDeparture(currentTime, route.departureTime, route.arrivalTime);
  }

  /** While now is a clock-face time, the card's wait text reads back as a
      wait of less than a day for a clock-face departure. */
  lemma CardWaitReadsBack(route: DisplayRoute, currentTime: string)
    requires Parseable(currentTime) && TimeToMinutes(currentTime) < MinutesPerDay
    requires ClockTime(route.departureTime) && HoursOf(route.departureTime) < 24
    requires Parseable(route.arrivalTime)
    ensures var w := ParseWait(RenderCard(route, currentTime).wait);
      w.Some? && 0 <= w.value < MinutesPerDay
      && w.value == (TimeToMinutes(route.departureTime) - TimeToMinutes(currentTime)) % MinutesPerDay
  {
    WaitSameDay(currentTime, route.departureTime);
    WaitTextRoundTrip(WaitMinutes(currentTime, route.departureTime));
  }
}
