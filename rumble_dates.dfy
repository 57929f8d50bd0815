/**
 * Relative upload dates ("3 hours ago", "2 weeks ago") turned into
 * instants. Instants are integers counting microseconds (the resolution of
 * Python's datetime) from a midnight epoch; the current time is a parameter.
 */
module RumbleDates {
  import opened Wrappers
  import opened Text

  const MicrosPerMinute: int := 60_000_000
  const MicrosPerHour: int := 3_600_000_000
  const MicrosPerDay: int := 86_400_000_000

  /** The units a relative date can be given in. */
  datatype Unit = Hour | Minute | Day | Week | Month | Year

  /** The keyword whose presence in the text selects the unit. */
  function Keyword(u: Unit): string {
    match u
    case Hour => "hour"
    case Minute => "minute"
    case Day => "day"
    case Week => "week"
    case Month => "month"
    case Year => "year"
  }

  /** The position of the unit in the order in which the keywords are tried. */
  function Rank(u: Unit): nat {
    match u
    case Hour => 0
    case Minute => 1
    case Day => 2
    case Week => 3
    case Month => 4
    case Year => 5
  }

  /** The unit of the first keyword, in the order hour, minute, day, week, month, year, that the text contains. */
  function MatchUnit(text: string): (r: Option<Unit>)
    ensures r.Some? ==> Contains(text, Keyword(r.value))
    ensures r.None? ==> forall u :: !Contains(text, Keyword(u))
  {
    if Contains(text, "hour") then Some(Hour)
    else if Contains(text, "minute") then Some(Minute)
    else if Contains(text, "day") then Some(Day)
    else if Contains(text, "week") then Some(Week)
    else if Contains(text, "month") then Some(Month)
    else if Contains(text, "year") then Some(Year)
    else None
  }

  /** The length of one unit: a month counts 30 days and a year 365. */
  function Span(u: Unit): (d: int)
    ensures d > 0
  {
    match u
    case Hour => MicrosPerHour
    case Minute => MicrosPerMinute
    case Day => MicrosPerDay
    case Week => 604_800_000_000
    case Month => 2_592_000_000_000
    case Year => 31_536_000_000_000
  }

  /** Units of a day or longer count back from midnight of the current day. */
  predicate FromMidnight(u: Unit) {
    u != Hour && u != Minute
  }

  /** The start of the day that holds t: t with hour, minute, second and microsecond set to zero. */
  function Midnight(t: int): (m: int)
    ensures m <= t < m + MicrosPerDay
    ensures m % MicrosPerDay == 0
  {
    t - t % MicrosPerDay
  }

  /** The instant counting starts from: now for hours and minutes, today's midnight otherwise. */
  function Origin(u: Unit, now: int): (o: int)
    ensures o <= now && now - o < MicrosPerDay
    ensures FromMidnight(u) ==> o % MicrosPerDay == 0
    ensures !FromMidnight(u) ==> o == now
  {
    if FromMidnight(u) then Midnight(now) else now
  }

  /** Why a relative date could not be read: it names a unit but holds no number. */
  datatype DateError = NoNumber

  /**
   * The instant a relative date denotes, seen at time now: the number found
   * in the text, in the unit its first keyword selects, before now (hours and
   * minutes) or before today's midnight (longer units). Text naming no unit
   * denotes now.
   */
  function ParseRumbleDate(text: string, now: int): (r: Result<int, DateError>)
    ensures MatchUnit(text).None? ==> r == Ok(now)
    ensures r.Err? <==> MatchUnit(text).Some? && FirstNumber(text).None?
    ensures r.Ok? ==> r.value <= now
  {
    match MatchUnit(text)
    case None => Ok(now)
    case Some(u) =>
      match FirstNumber(text)
      case None => Err(NoNumber)
      case Some(n) => Ok(Origin(u, now) - Back(n, u))
  }

  /** The length of n units: never negative. */
  function Back(n: nat, u: Unit): (b: int)
    ensures b >= 0
  {
    n * Span(u)
  }

  /** The unit chosen is the first, in the fixed order, whose keyword the text contains. */
  lemma MatchUnitIsFirst(text: string, u: Unit)
    ensures MatchUnit(text) == Some(u) <==>
              Contains(text, Keyword(u)) && forall v :: Rank(v) < Rank(u) ==> !Contains(text, Keyword(v))
  {
    if MatchUnit(text) == Some(u) {
      forall v | Rank(v) < Rank(u) ensures !Contains(text, Keyword(v)) {
        match v
        case Hour =>
        case Minute =>
        case Day =>
        case Week =>
        case Month =>
        case Year =>
      }
    }
    assert Rank(Hour) == 0 && Rank(Minute) == 1 && Rank(Day) == 2;
    assert Rank(Week) == 3 && Rank(Month) == 4 && Rank(Year) == 5;
  }

  /** Text that contains none of the keywords denotes the current time. */
  lemma NoKeywordMeansNow(text: string, now: int)
    requires forall u :: !Contains(text, Keyword(u))
    ensures ParseRumbleDate(text, now) == Ok(now)
  {
    assert !Contains(text, Keyword(Hour)) && !Contains(text, Keyword(Minute)) && !Contains(text, Keyword(Day));
    assert !Contains(text, Keyword(Week)) && !Contains(text, Keyword(Month)) && !Contains(text, Keyword(Year));
  }

  /** Text with a keyword but without any digit is an error. */
  lemma KeywordWithoutNumberFails(text: string, now: int, u: Unit)
    requires Contains(text, Keyword(u))
    requires forall k :: 0 <= k < |text| ==> !IsDigit(text[k])
    ensures ParseRumbleDate(text, now) == Err(NoNumber)
  {
    MatchUnitIsFirst(text, u);
  }

  /** Going back a whole number of days from a midnight lands on a midnight. */
  lemma DaysBeforeMidnight(now: int, back: int, days: int)
    requires back == days * 86_400_000_000
    ensures (Midnight(now) - back) % MicrosPerDay == 0
  {
    var x := now / MicrosPerDay;
    assert Midnight(now) == x * 86_400_000_000;
    assert Midnight(now) - back == (x - days) * 86_400_000_000;
  }

  /**
   * A date naming unit u and number n lies n units before its origin: before
   * now for hours and minutes, on a midnight n units before today's for
   * longer units; never after now.
   */
  lemma ParsedInstant(text: string, now: int, u: Unit, n: nat)
    requires MatchUnit(text) == Some(u) && FirstNumber(text) == Some(n)
    ensures ParseRumbleDate(text, now) == Ok(Origin(u, now) - n * Span(u))
    ensures ParseRumbleDate(text, now).value <= now
    ensures FromMidnight(u) ==> ParseRumbleDate(text, now).value % MicrosPerDay == 0
  {
    var back := Back(n, u);
    assert ParseRumbleDate(text, now) == Ok(Origin(u, now) - back);
    if FromMidnight(u) {
      match u
      case Day => DaysBeforeMidnight(now, back, n);
      case Week => DaysBeforeMidnight(now, back, 7 * n);
      case Month => DaysBeforeMidnight(now, back, 30 * n);
      case Year => DaysBeforeMidnight(now, back, 365 * n);
    }
  }

  /** A word holding a character the text lacks does not occur in the text. */
  lemma MissingCharacter(text: string, w: string, c: char)
    requires c in w && c !in text
    ensures !Contains(text, w)
  {
  }

  /** A relative date in the form "N units ago". */
  function Rendered(n: nat, u: Unit): string {
    Show(n) + " " + Keyword(u) + "s ago"
  }

  /** A rendered date contains the keyword of its unit. */
  lemma RenderedContainsKeyword(n: nat, u: Unit)
    ensures Contains(Rendered(n, u), Keyword(u))
  {
    var text := Rendered(n, u);
    var i := |Show(n)| + 1;
    assert text[i..i + |Keyword(u)|] == Keyword(u);
    assert OccursAt(text, Keyword(u), i);
  }

  /** A word with a non-digit character that the words of a rendered date lack does not occur in it. */
  lemma RenderedLacks(n: nat, u: Unit, w: string, c: char)
    requires c in w && !IsDigit(c) && c !in " " + Keyword(u) + "s ago"
    ensures !Contains(Rendered(n, u), w)
  {
    var text := Rendered(n, u);
    assert text == Show(n) + (" " + Keyword(u) + "s ago");
    assert c !in text;
    MissingCharacter(text, w, c);
  }

  // The unit of each rendered date is found: the text contains its keyword,
  // and each keyword tried before it is ruled out by a letter the text lacks.

  lemma RenderedHour(n: nat)
    ensures MatchUnit(Rendered(n, Hour)) == Some(Hour)
  {
    RenderedContainsKeyword(n, Hour);
  }

  lemma RenderedMinute(n: nat)
    ensures MatchUnit(Rendered(n, Minute)) == Some(Minute)
  {
    RenderedContainsKeyword(n, Minute);
    RenderedLacks(n, Minute, "hour", 'h');
  }

  lemma RenderedDay(n: nat)
    ensures MatchUnit(Rendered(n, Day)) == Some(Day)
  {
    RenderedContainsKeyword(n, Day);
    RenderedLacks(n, Day, "hour", 'h');
    RenderedLacks(n, Day, "minute", 'm');
  }

  lemma RenderedWeek(n: nat)
    ensures MatchUnit(Rendered(n, Week)) == Some(Week)
  {
    RenderedContainsKeyword(n, Week);
    RenderedLacks(n, Week, "hour", 'h');
    RenderedLacks(n, Week, "minute", 'm');
    RenderedLacks(n, Week, "day", 'd');
  }

  lemma RenderedMonth(n: nat)
    ensures MatchUnit(Rendered(n, Month)) == Some(Month)
  {
    RenderedContainsKeyword(n, Month);
    RenderedLacks(n, Month, "hour", 'u');
    RenderedLacks(n, Month, "minute", 'i');
    RenderedLacks(n, Month, "day", 'd');
    RenderedLacks(n, Month, "week", 'w');
  }

  lemma RenderedYear(n: nat)
    ensures MatchUnit(Rendered(n, Year)) == Some(Year)
  {
    RenderedContainsKeyword(n, Year);
    RenderedLacks(n, Year, "hour", 'h');
    RenderedLacks(n, Year, "minute", 'm');
    RenderedLacks(n, Year, "day", 'd');
    RenderedLacks(n, Year, "week", 'w');
    RenderedLacks(n, Year, "month", 'm');
  }

  /** The keyword of the unit a date is rendered in is the first keyword found in it. */
  lemma RenderedUnit(n: nat, u: Unit)
    ensures MatchUnit(Rendered(n, u)) == Some(u)
  {
    match u
    case Hour => RenderedHour(n);
    case Minute => RenderedMinute(n);
    case Day => RenderedDay(n);
    case Week => RenderedWeek(n);
    case Month => RenderedMonth(n);
    case Year => RenderedYear(n);
  }

  /** The number a date is rendered with is the number found in it. */
  lemma RenderedNumber(n: nat, u: Unit)
    ensures FirstNumber(Rendered(n, u)) == Some(n)
  {
    var tail := " " + Keyword(u) + "s ago";
    assert Rendered(n, u) == [] + Show(n) + tail;
    FirstNumberFinds([], n, tail);
  }

  /** Reading a date in the form "N units ago" gives back the number of units before now or before midnight. */
  lemma ParseRendered(n: nat, u: Unit, now: int)
    ensures ParseRumbleDate(Rendered(n, u), now) == Ok(Origin(u, now) - n * Span(u))
  {
    RenderedUnit(n, u);
    RenderedNumber(n, u);
    ParsedInstant(Rendered(n, u), now, u, n);
  }
}
