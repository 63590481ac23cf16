/**
 The `datetime-local` form values of src/util.rs: the parser, the printer, and
 the exact language and meaning of what the parser accepts.
 */
module DatetimeLocal {
  import opened Common
  import opened Text
  import opened Calendar

  const SECONDS_A_DAY := 86_400

  /** The integers a form value spells, before they are checked against the calendar. */
  datatype Fields = Fields(year: int, month: int, day: int, hour: int, minute: int, second: int)
  {
    predicate InCalendar() {
      && 1970 <= year <= 9999
      && ValidDate(Date(year, month, day))
      && 0 <= hour < 24 && 0 <= minute < 60 && 0 <= second < 60
    }

    function Instant(): int {
      DaysFromCivil(Date(year, month, day)) * SECONDS_A_DAY + hour * 3_600 + minute * 60 + second
    }
  }

  /** The instants of the years 1970 through 9999. */
  predicate InRange(t: int) {
    0 <= t < 253_402_300_800
  }

  // ---------------------------------------------------------------------
  // The parser and the printer
  // ---------------------------------------------------------------------

  function ParseDate(date: seq<string>): Option<(int, int, int)> {
    if |date| != 3 then None
    else
      match (ParseI64(date[0]), ParseU32(date[1]), ParseU32(date[2]))
      case (Some(year), Some(month), Some(day)) => Some((year, month, day))
      case _ => None
  }

  /** The seconds may be missing. */
  function ParseTime(time: seq<string>): Option<(int, int, int)> {
    if !(2 <= |time| <= 3) then None
    else
      match (ParseI64(time[0]), ParseI64(time[1]), if |time| == 3 then ParseI64(time[2]) else Some(0))
      case (Some(hour), Some(minute), Some(second)) => Some((hour, minute, second))
      case _ => None
  }

  function ParseFields(date: seq<string>, time: seq<string>): Option<Fields> {
    match (ParseDate(date), ParseTime(time))
    case (Some((year, month, day)), Some((hour, minute, second))) =>
      Some(Fields(year, month, day, hour, minute, second))
    case _ => None
  }

  function ParseShape(raw: string): Option<Fields> {
    match Find(raw, "T")
    case None => None
    case Some(i) => ParseFields(Split(raw[..i], '-'), Split(raw[i + 1..], ':'))
  }

  function Parse(raw: string): Option<int> {
    match ParseShape(raw)
    case None => None
    case Some(f) => if f.InCalendar() then Some(f.Instant()) else None
  }

  /** Takes the next piece of a split string, as `Split::next` does. */
  method NextPiece(pieces: seq<string>) returns (piece: Option<string>, rest: seq<string>)
    ensures if pieces == [] then piece == None && rest == [] else piece == Some(pieces[0]) && rest == pieces[1..]
  {
    if pieces == [] {
      return None, [];
    }
    return Some(pieces[0]), pieces[1..];
  }

  method TakeDate(date: seq<string>) returns (r: Option<(int, int, int)>)
    ensures r == ParseDate(date)
  {
    var piece, parts := NextPiece(date);
    if piece.None? { return None; }
    var year := ParseI64(piece.value);
    if year.None? { return None; }
    piece, parts := NextPiece(parts);
    if piece.None? { return None; }
    var month := ParseU32(piece.value);
    if month.None? { return None; }
    piece, parts := NextPiece(parts);
    if piece.None? { return None; }
    var day := ParseU32(piece.value);
    if day.None? { return None; }
    piece, parts := NextPiece(parts);
    if piece.Some? { return None; }
    r := Some((year.value, month.value, day.value));
  }

  method TakeTime(time: seq<string>) returns (r: Option<(int, int, int)>)
    ensures r == ParseTime(time)
  {
    var piece, parts := NextPiece(time);
    if piece.None? { return None; }
    var hour := ParseI64(piece.value);
    if hour.None? { return None; }
    piece, parts := NextPiece(parts);
    if piece.None? { return None; }
    var minute := ParseI64(piece.value);
    if minute.None? { return None; }
    piece, parts := NextPiece(parts);
    var second := Some(0);
    if piece.Some? {
      second := ParseI64(piece.value);
      if second.None? { return None; }
    }
    piece, parts := NextPiece(parts);
    if piece.Some? { return None; }
    r := Some((hour.value, minute.value, second.value));
  }

  method TakeFields(raw: string) returns (f: Option<Fields>)
    ensures f == ParseShape(raw)
  {
    var split := Find(raw, "T");
    if split.None? { return None; }
    var date := TakeDate(Split(raw[..split.value], '-'));
    if date.None? { return None; }
    var time := TakeTime(Split(raw[split.value + 1..], ':'));
    if time.None? { return None; }
    f := Some(Fields(date.value.0, date.value.1, date.value.2, time.value.0, time.value.1, time.value.2));
  }

  method ParseDatetimeLocal(raw: string) returns (r: Option<int>)
    ensures r == Parse(raw)
  {
    var fields := TakeFields(raw);
    if fields.None? { return None; }
    var f := fields.value;
    if !(1970 <= f.year <= 9999) { return None; }
    if !(1 <= f.month <= 12) { return None; }
    if f.day < 1 || f.day > DaysInMonth(f.year, f.month) { return None; }
    if !(0 <= f.hour < 24) { return None; }
    if !(0 <= f.minute < 60) { return None; }
    if !(0 <= f.second < 60) { return None; }
    r := Some(f.Instant());
  }

  function Format(seconds: int): string {
    FormatAt(CivilFromDays(seconds / SECONDS_A_DAY), seconds % SECONDS_A_DAY)
  }

  function FormatAt(d: Date, timeOfDay: int): string {
    Padded(d.year, 4) + "-" + Padded(d.month, 2) + "-" + Padded(d.day, 2) + "T"
    + Padded(timeOfDay / 3_600, 2) + ":" + Padded(timeOfDay % 3_600 / 60, 2)
  }

  // ---------------------------------------------------------------------
  // The accepted language
  // ---------------------------------------------------------------------

  /** How a form value is written: five or six pieces between fixed separators. */
  datatype Spelling = Spelling(year: string, month: string, day: string,
                               hour: string, minute: string, second: Option<string>)
  {
    function Date(): seq<string> {
      [year, month, day]
    }

    function Time(): seq<string> {
      [hour, minute] + if second.Some? then [second.value] else []
    }

    function Written(): string {
      year + "-" + month + "-" + day + "T" + hour + ":" + minute
      + if second.Some? then ":" + second.value else ""
    }

    /** Every piece is an integer of its field's type; a minus sign cannot open the year. */
    predicate Denotes(f: Fields) {
      && '-' !in year
      && ParseI64(year) == Some(f.year) && ParseU32(month) == Some(f.month) && ParseU32(day) == Some(f.day)
      && ParseI64(hour) == Some(f.hour) && ParseI64(minute) == Some(f.minute)
      && (if second.Some? then ParseI64(second.value) else Some(0)) == Some(f.second)
    }
  }

  lemma JoinTwo(a: string, b: string, separator: char)
    ensures Join([a, b], separator) == a + [separator] + b
  {
    assert [a, b][1..] == [b];
  }

  lemma JoinThree(a: string, b: string, c: string, separator: char)
    ensures Join([a, b, c], separator) == a + [separator] + b + [separator] + c
  {
    assert [a, b, c][1..] == [b, c];
    JoinTwo(b, c, separator);
  }

  lemma WrittenIsJoined(s: Spelling)
    ensures s.Written() == Join(s.Date(), '-') + "T" + Join(s.Time(), ':')
  {
    JoinThree(s.year, s.month, s.day, '-');
    if s.second.Some? {
      JoinThree(s.hour, s.minute, s.second.value, ':');
      assert s.Time() == [s.hour, s.minute, s.second.value];
    } else {
      JoinTwo(s.hour, s.minute, ':');
      assert s.Time() == [s.hour, s.minute];
    }
  }

  lemma IntegersHaveNoSeparators(s: string, signed: bool, low: int, high: int)
    requires ParseInteger(s, signed, low, high).Some?
    ensures 'T' !in s && ':' !in s && (!signed ==> '-' !in s)
  {
    ParsedCharacters(s, signed, low, high);
  }

  lemma PiecesHaveNoSeparators(s: Spelling, f: Fields)
    requires s.Denotes(f)
    ensures forall i :: 0 <= i < |s.Date()| ==> '-' !in s.Date()[i] && 'T' !in s.Date()[i]
    ensures forall i :: 0 <= i < |s.Time()| ==> ':' !in s.Time()[i]
  {
    var low, high := -0x8000_0000_0000_0000, 0x7FFF_FFFF_FFFF_FFFF;
    IntegersHaveNoSeparators(s.year, true, low, high);
    IntegersHaveNoSeparators(s.month, false, 0, 0xFFFF_FFFF);
    IntegersHaveNoSeparators(s.day, false, 0, 0xFFFF_FFFF);
    IntegersHaveNoSeparators(s.hour, true, low, high);
    IntegersHaveNoSeparators(s.minute, true, low, high);
    if s.second.Some? {
      IntegersHaveNoSeparators(s.second.value, true, low, high);
    }
  }

  lemma DateHasNoT(s: Spelling, f: Fields)
    requires s.Denotes(f)
    ensures 'T' !in Join(s.Date(), '-')
  {
    PiecesHaveNoSeparators(s, f);
    assert 'T' !in s.Date()[0] && 'T' !in s.Date()[1] && 'T' !in s.Date()[2];
    JoinThree(s.year, s.month, s.day, '-');
  }

  lemma ShapeOfJoined(date: seq<string>, time: seq<string>)
    requires date != [] && time != []
    requires forall i :: 0 <= i < |date| ==> '-' !in date[i]
    requires forall i :: 0 <= i < |time| ==> ':' !in time[i]
    requires 'T' !in Join(date, '-')
    ensures ParseShape(Join(date, '-') + "T" + Join(time, ':')) == ParseFields(date, time)
  {
    var d, t := Join(date, '-'), Join(time, ':');
    NotContained(d, "T", 'T');
    FindsFirst(d, "T", t);
    SplitJoin(date, '-');
    SplitJoin(time, ':');
  }

  lemma SpelledParses(s: Spelling, f: Fields)
    requires s.Denotes(f)
    ensures ParseShape(s.Written()) == Some(f)
  {
    WrittenIsJoined(s);
    DateHasNoT(s, f);
    PiecesHaveNoSeparators(s, f);
    ShapeOfJoined(s.Date(), s.Time());
  }

  function SpellingOf(date: seq<string>, time: seq<string>): (s: Spelling)
    requires |date| == 3 && 2 <= |time| <= 3
    ensures s.Date() == date && s.Time() == time
  {
    Spelling(date[0], date[1], date[2], time[0], time[1], if |time| == 3 then Some(time[2]) else None)
  }

  lemma PiecesDenote(date: seq<string>, time: seq<string>)
    requires ParseFields(date, time).Some? && '-' !in date[0]
    ensures SpellingOf(date, time).Denotes(ParseFields(date, time).value)
  {
  }

  lemma ParsedIsSpelled(raw: string) returns (s: Spelling)
    requires ParseShape(raw).Some?
    ensures s.Written() == raw && s.Denotes(ParseShape(raw).value)
  {
    var i := Find(raw, "T").value;
    FindCuts(raw, "T", i);
    var date, time := Split(raw[..i], '-'), Split(raw[i + 1..], ':');
    s := SpellingOf(date, time);
    PiecesDenote(date, time);
    WrittenIsJoined(s);
  }

  /**
   The parser accepts exactly the values whose pieces are integers that
   denote a valid calendar date of 1970 through 9999 and a valid time, and
   answers the instant they denote.
   */
  lemma ParsesExactlyTheCalendar(raw: string, t: int)
    ensures Parse(raw) == Some(t)
       <==> exists s: Spelling, f: Fields :: s.Written() == raw && s.Denotes(f) && f.InCalendar() && f.Instant() == t
  {
    if Parse(raw) == Some(t) {
      var s := ParsedIsSpelled(raw);
    }
    forall s: Spelling, f: Fields | s.Written() == raw && s.Denotes(f) && f.InCalendar() && f.Instant() == t
      ensures Parse(raw) == Some(t)
    {
      SpelledParses(s, f);
    }
  }

  // ---------------------------------------------------------------------
  // The round trip
  // ---------------------------------------------------------------------

  /** The day counts of the years 1970 through 9999. */
  lemma YearsInRange(d: Date)
    requires ValidDate(d)
    ensures 1970 <= d.year <= 9999 <==> 0 <= DaysFromCivil(d) < 2_932_897
  {
    var first, last := Date(1970, 1, 1), Date(9999, 12, 31);
    assert DaysFromCivil(first) == 0 && DaysFromCivil(last) == 2_932_896;
    DayCountsOrderDates(d, first);
    DayCountsOrderDates(last, d);
  }

  lemma DayCountsOrderDates(d: Date, e: Date)
    requires ValidDate(d) && ValidDate(e)
    ensures DaysFromCivil(d) < DaysFromCivil(e) <==> Before(d, e)
  {
    if Before(d, e) {
      DaysFromCivilIsMonotone(d, e);
    } else if Before(e, d) {
      DaysFromCivilIsMonotone(e, d);
    }
  }

  /** The start of the minute an instant lies in. */
  function RoundedDown(t: int): int {
    t - t % 60
  }

  /** The fields a formatted instant spells. */
  function FormattedFields(t: int): Fields {
    var d, timeOfDay := CivilFromDays(t / SECONDS_A_DAY), t % SECONDS_A_DAY;
    Fields(d.year, d.month, d.day, timeOfDay / 3_600, timeOfDay % 3_600 / 60, 0)
  }

  lemma FormattedFieldsAreInCalendar(t: int)
    requires InRange(t)
    ensures FormattedFields(t).InCalendar()
    ensures FormattedFields(t).Instant() == RoundedDown(t)
  {
    CivilFromDaysIsValid(t / SECONDS_A_DAY);
    YearsInRange(CivilFromDays(t / SECONDS_A_DAY));
    MinuteOfDay(t);
  }

  lemma MinuteOfDay(t: int)
    ensures var timeOfDay := t % SECONDS_A_DAY;
            && 0 <= timeOfDay / 3_600 < 24 && 0 <= timeOfDay % 3_600 / 60 < 60
            && t / SECONDS_A_DAY * SECONDS_A_DAY + timeOfDay / 3_600 * 3_600 + timeOfDay % 3_600 / 60 * 60
               == t - t % 60
  {
    var days, timeOfDay := t / SECONDS_A_DAY, t % SECONDS_A_DAY;
    assert t == 60 * (1_440 * days) + timeOfDay;
    assert t % 60 == timeOfDay % 60;
  }

  function FormattedSpelling(f: Fields): Spelling {
    Spelling(Padded(f.year, 4), Padded(f.month, 2), Padded(f.day, 2),
             Padded(f.hour, 2), Padded(f.minute, 2), None)
  }

  lemma FormattedSpellingDenotes(f: Fields)
    requires f.InCalendar() && f.second == 0
    ensures FormattedSpelling(f).Denotes(f)
  {
    var low, high := -0x8000_0000_0000_0000, 0x7FFF_FFFF_FFFF_FFFF;
    PaddedParsesBack(f.year, 4, true, low, high);
    PaddedParsesBack(f.month, 2, false, 0, 0xFFFF_FFFF);
    PaddedParsesBack(f.day, 2, false, 0, 0xFFFF_FFFF);
    PaddedParsesBack(f.hour, 2, true, low, high);
    PaddedParsesBack(f.minute, 2, true, low, high);
  }

  lemma FormatWritesTheFields(t: int)
    ensures Format(t) == FormattedSpelling(FormattedFields(t)).Written()
  {
  }

  lemma WrittenParsesBack(f: Fields, raw: string, t: int)
    requires f.InCalendar() && f.second == 0
    requires raw == FormattedSpelling(f).Written() && t == f.Instant()
    ensures Parse(raw) == Some(t)
  {
    FormattedSpellingDenotes(f);
    SpelledParses(FormattedSpelling(f), f);
  }

  lemma WrittenFields(t: int, raw: string) returns (f: Fields)
    requires InRange(t) && raw == Format(t)
    ensures f.InCalendar() && f.second == 0
    ensures raw == FormattedSpelling(f).Written() && f.Instant() == RoundedDown(t)
  {
    f := FormattedFields(t);
    FormattedFieldsAreInCalendar(t);
    FormatWritesTheFields(t);
  }

  /** Formatting an instant of 1970 through 9999 and parsing it back rounds it down to the minute. */
  lemma FormatParsesBack(t: int)
    requires InRange(t)
    ensures Parse(Format(t)) == Some(RoundedDown(t))
  {
    var raw, minute := Format(t), RoundedDown(t);
    var f := WrittenFields(t, raw);
    WrittenParsesBack(f, raw, minute);
    assert Parse(raw) == Some(minute);
  }

  lemma TwoDigitsParse(n: nat)
    requires n < 100
    ensures ParseI64(Padded(n, 2)) == Some(n)
  {
    PaddedParsesBack(n, 2, true, -0x8000_0000_0000_0000, 0x7FFF_FFFF_FFFF_FFFF);
  }

  lemma WithSeconds(f: Fields, second: nat, s: Spelling)
    requires f.InCalendar() && f.second == 0 && second < 60
    requires s == FormattedSpelling(f).(second := Some(Padded(second, 2)))
    ensures s.Denotes(f.(second := second)) && f.(second := second).InCalendar()
    ensures s.Written() == FormattedSpelling(f).Written() + ":" + Padded(second, 2)
    ensures f.(second := second).Instant() == f.Instant() + second
  {
    FormattedSpellingDenotes(f);
    TwoDigitsParse(second);
    AppendSeconds(FormattedSpelling(f), Padded(second, 2));
  }

  lemma AppendSeconds(s: Spelling, second: string)
    requires s.second == None
    ensures s.(second := Some(second)).Written() == s.Written() + ":" + second
  {
  }

  /** With its seconds written behind it, a formatted value parses back to the very instant. */
  lemma SecondsParseBack(t: int)
    requires InRange(t)
    ensures Parse(Format(t) + ":" + Padded(t % 60, 2)) == Some(t)
  {
    var raw := Format(t);
    var f := WrittenFields(t, raw);
    var second := t % 60;
    var s := FormattedSpelling(f).(second := Some(Padded(second, 2)));
    WithSeconds(f, second, s);
    SpelledParses(s, f.(second := second));
    assert RoundedDown(t) + second == t;
  }

  /** Different fields of the calendar are different instants, to the second. */
  lemma InstantsTellFieldsApart(f: Fields, g: Fields)
    requires f.InCalendar() && g.InCalendar() && f.Instant() == g.Instant()
    ensures f == g
  {
    var d, e := Date(f.year, f.month, f.day), Date(g.year, g.month, g.day);
    SameTimeOfDay(DaysFromCivil(d), f.hour, f.minute, f.second, DaysFromCivil(e), g.hour, g.minute, g.second);
    CivilFromDaysInvertsDaysFromCivil(d);
    CivilFromDaysInvertsDaysFromCivil(e);
  }

  lemma SameTimeOfDay(d: int, h: int, m: int, s: int, d': int, h': int, m': int, s': int)
    requires 0 <= h < 24 && 0 <= m < 60 && 0 <= s < 60 && 0 <= h' < 24 && 0 <= m' < 60 && 0 <= s' < 60
    requires d * 86_400 + h * 3_600 + m * 60 + s == d' * 86_400 + h' * 3_600 + m' * 60 + s'
    ensures d == d' && h == h' && m == m' && s == s'
  {
    assert d == d';
    assert h == h';
    assert m == m';
  }

  lemma CalendarInstantsAreInRange(f: Fields)
    requires f.InCalendar()
    ensures InRange(f.Instant())
  {
    YearsInRange(Date(f.year, f.month, f.day));
  }

  /** An accepted value denotes an instant of 1970 through 9999, and its formatted form is stable. */
  lemma ReparsingIsStable(raw: string, t: int)
    requires Parse(raw) == Some(t)
    ensures InRange(t) && Parse(Format(t)) == Some(RoundedDown(t)) && Format(RoundedDown(t)) == Format(t)
  {
    CalendarInstantsAreInRange(ParseShape(raw).value);
    FormatParsesBack(t);
    SameMinuteSameFormat(t);
  }

  lemma SameMinuteSameDay(t: int)
    ensures (t - t % 60) / SECONDS_A_DAY == t / SECONDS_A_DAY
    ensures var timeOfDay, rounded := t % SECONDS_A_DAY, (t - t % 60) % SECONDS_A_DAY;
            rounded / 3_600 == timeOfDay / 3_600 && rounded % 3_600 / 60 == timeOfDay % 3_600 / 60
  {
    var days, timeOfDay := t / SECONDS_A_DAY, t % SECONDS_A_DAY;
    assert t % 60 == timeOfDay % 60 by {
      assert t == 60 * (1_440 * days) + timeOfDay;
    }
    assert t - t % 60 == days * SECONDS_A_DAY + (timeOfDay - timeOfDay % 60);
  }

  lemma SameMinuteSameFormat(t: int)
    ensures Format(RoundedDown(t)) == Format(t)
  {
    SameMinuteSameDay(t);
  }

  /** The shape browsers send and accept: `YYYY-MM-DDTHH:MM`, sixteen characters. */
  predicate IsBrowserShape(s: string) {
    && |s| == 16 && s[4] == '-' && s[7] == '-' && s[10] == 'T' && s[13] == ':'
    && forall i :: 0 <= i < 16 && i !in {4, 7, 10, 13} ==> IsDigit(s[i])
  }

  lemma PaddedWidth(n: nat, width: nat)
    requires (width == 2 && n < 100) || (width == 4 && n < 10_000)
    ensures |Padded(n, width)| == width && AllDigits(Padded(n, width))
  {
    PaddedParsesBack(n, width, false, 0, n);
    if n < 10 {
    } else if n < 100 {
      assert |Decimal(n / 10)| == 1;
    } else if n < 1_000 {
      assert |Decimal(n / 10 / 10)| == 1 && |Decimal(n / 10)| == 2;
    } else {
      assert |Decimal(n / 10 / 10 / 10)| == 1 && |Decimal(n / 10 / 10)| == 2 && |Decimal(n / 10)| == 3;
    }
  }

  lemma ShapeOfPieces(year: string, month: string, day: string, hour: string, minute: string)
    requires |year| == 4 && |month| == |day| == |hour| == |minute| == 2
    requires AllDigits(year) && AllDigits(month) && AllDigits(day) && AllDigits(hour) && AllDigits(minute)
    ensures IsBrowserShape(Spelling(year, month, day, hour, minute, None).Written())
  {
    var s := Spelling(year, month, day, hour, minute, None).Written();
    assert s[..4] == year && s[5..7] == month && s[8..10] == day && s[11..13] == hour && s[14..] == minute;
    assert forall i :: 0 <= i < 4 ==> s[i] == year[i];
    assert forall i :: 5 <= i < 7 ==> s[i] == month[i - 5];
    assert forall i :: 8 <= i < 10 ==> s[i] == day[i - 8];
    assert forall i :: 11 <= i < 13 ==> s[i] == hour[i - 11];
    assert forall i :: 14 <= i < 16 ==> s[i] == minute[i - 14];
  }

  lemma FormatHasBrowserShape(t: int)
    requires InRange(t)
    ensures IsBrowserShape(Format(t))
  {
    var f := WrittenFields(t, Format(t));
    PaddedWidth(f.year, 4);
    PaddedWidth(f.month, 2);
    PaddedWidth(f.day, 2);
    PaddedWidth(f.hour, 2);
    PaddedWidth(f.minute, 2);
    ShapeOfPieces(Padded(f.year, 4), Padded(f.month, 2), Padded(f.day, 2), Padded(f.hour, 2), Padded(f.minute, 2));
  }
}
