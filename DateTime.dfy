/** Rendering of the `d/m/y` dates and `HHMM` times of deadlines and events
    as chat-style text ("3rd of June 2019, ", "6pm"). Every operation is a
    total function: a text, a DateException, or the runtime fault Java would
    raise (an unparsable number, a missing field, a too-short time). */
module DateTime {
  import opened Errors
  import opened JavaStrings

  const InvalidMonth := "Invalid month entered!"
  const InvalidTime := "Invalid time entered!"

  /** The month names, January first. */
  const MonthNames: seq<string> := [
    "January", "February", "March", "April", "May", "June", "July",
    "August", "September", "October", "November", "December"]

  // ---------------------------------------------------------------------
  // Dates
  // ---------------------------------------------------------------------

  /** The suffix the code writes after a day number: only 1, 2 and 3 get
      "st", "nd" and "rd"; every other number, 21, 22, 23 and 31 included,
      gets "th". */
  function DaySuffix(dayNum: int): (s: string)
    ensures s == "st" <==> dayNum == 1
    ensures s == "nd" <==> dayNum == 2
    ensures s == "rd" <==> dayNum == 3
    ensures s == "th" <==> dayNum !in {1, 2, 3}
  {
    if dayNum == 1 then "st"
    else if dayNum == 2 then "nd"
    else if dayNum == 3 then "rd"
    else "th"
  }

  /** The suffix English grammar gives an ordinal number. */
  function EnglishSuffix(n: nat): string
  {
    if 11 <= n % 100 <= 13 then "th"
    else if n % 10 == 1 then "st"
    else if n % 10 == 2 then "nd"
    else if n % 10 == 3 then "rd"
    else "th"
  }

  /** On the days of a month the written suffix is the English one except
      on the 21st, 22nd, 23rd and 31st. */
  lemma DaySuffixAgainstEnglish(n: nat)
    requires 1 <= n <= 31
    ensures DaySuffix(n) == EnglishSuffix(n) <==> n !in {21, 22, 23, 31}
  {
    if n in {21, 22, 23, 31} {
      assert EnglishSuffix(n) != "th";
    }
  }

  /** addDaySuffix: the day text exactly as given, then the suffix of its
      value; an unparsable day is a NumberFormatFault. */
  function AddDaySuffix(day: string): (r: Result<string>)
    ensures r.Ok? <==> ParseInt(day).Some?
    ensures r.Err? ==> r.error == NumberFormatFault
    ensures r.Ok? ==> |r.value| == |day| + 2 && r.value[..|day|] == day
    ensures r.Ok? ==> r.value[|day|..] == DaySuffix(ParseInt(day).value)
  {
    var dayNum :- ParseIntOrThrow(day);
    Ok(day + DaySuffix(dayNum))
  }

  /** wordMonth: month numbers 1 to 12 name their month, in calendar
      order; any other number is a DateException. */
  function WordMonth(month: string): (r: Result<string>)
    ensures ParseInt(month).None? ==> r == Err(NumberFormatFault)
    ensures ParseInt(month).Some? && 1 <= ParseInt(month).value <= 12 ==>
      r == Ok(MonthNames[ParseInt(month).value - 1])
    ensures ParseInt(month).Some? && !(1 <= ParseInt(month).value <= 12) ==>
      r == Err(DateException(InvalidMonth))
  {
    var monthNum :- ParseIntOrThrow(month);
    match monthNum
    case 1 => Ok("January")
    case 2 => Ok("February")
    case 3 => Ok("March")
    case 4 => Ok("April")
    case 5 => Ok("May")
    case 6 => Ok("June")
    case 7 => Ok("July")
    case 8 => Ok("August")
    case 9 => Ok("September")
    case 10 => Ok("October")
    case 11 => Ok("November")
    case 12 => Ok("December")
    case _ => Err(DateException(InvalidMonth))
  }

  /** Different months have different names, so the name determines the
      month number. */
  lemma WordMonthInjective(a: string, b: string)
    requires WordMonth(a).Ok? && WordMonth(a) == WordMonth(b)
    ensures ParseInt(a) == ParseInt(b)
  {
    var m, n := ParseInt(a).value, ParseInt(b).value;
    assert MonthNames[m - 1] == MonthNames[n - 1];
    assert MonthNames[m - 1][..3] == MonthNames[n - 1][..3];
  }

  /** getDate: the fields of `d/m/y` are the day, the month and the year;
      fields after the third are ignored. */
  function GetDate(date: string): (r: Result<string>)
    ensures r.Err? ==> r.error.IsRuntimeFault() || r.error == DateException(InvalidMonth)
  {
    var splitDate := Split(date, '/');
    if |splitDate| < 1 then Err(IndexOutOfBoundsFault)
    else
      var dd :- AddDaySuffix(splitDate[0]);
      if |splitDate| < 2 then Err(IndexOutOfBoundsFault)
      else
        var mm :- WordMonth(splitDate[1]);
        if |splitDate| < 3 then Err(IndexOutOfBoundsFault)
        else Ok(dd + " of " + mm + " " + splitDate[2] + ", ")
  }

  /** The first three fields of a date string whose day and month are
      non-empty and whose year is non-empty (and not validated). */
  lemma SplitDateFields(day: string, month: string, year: string, rest: string)
    requires day != [] && '/' !in day
    requires month != [] && '/' !in month
    requires year != [] && '/' !in year
    requires rest == [] || rest[0] == '/'
    ensures var fields := Split(day + "/" + month + "/" + year + rest, '/');
      |fields| >= 3 && fields[0] == day && fields[1] == month && fields[2] == year
  {
    var date := day + "/" + month + "/" + year + rest;
    assert date == day + ['/'] + (month + ['/'] + (year + rest));
    PiecesAround(day, month + ['/'] + (year + rest), '/');
    PiecesAround(month, year + rest, '/');
    PiecesOfWord(day, '/');
    PiecesOfWord(month, '/');
    PiecesLeading(year, rest, '/');
    assert date[|day|] == '/';
    var ps := Pieces(date, '/');
    assert ps[0] == day && ps[1] == month && ps[2] == year;
  }

  lemma NoSlashInDigits(s: string)
    requires AllDigits(s)
    ensures '/' !in s
  {
    forall i | 0 <= i < |s| ensures s[i] != '/' {
      assert IsDigit(s[i]);
    }
  }

  /** getDate on a date with at least three fields whose day and month
      parse: the day text with its suffix, " of ", the month name, the third
      field verbatim and ", "; a month outside 1..12 is a DateException. */
  lemma GetDateOfParsedFields(date: string, d: int, m: int)
    requires |Split(date, '/')| >= 3
    requires ParseInt(Split(date, '/')[0]) == Some(d)
    requires ParseInt(Split(date, '/')[1]) == Some(m)
    ensures var fields := Split(date, '/');
      GetDate(date)
      == if 1 <= m <= 12
         then Ok(fields[0] + DaySuffix(d) + " of " + MonthNames[m - 1] + " " + fields[2] + ", ")
         else Err(DateException(InvalidMonth))
  {
    var fields := Split(date, '/');
    assert AddDaySuffix(fields[0]) == Ok(fields[0] + DaySuffix(d));
    if 1 <= m <= 12 {
      assert WordMonth(fields[1]) == Ok(MonthNames[m - 1]);
    } else {
      assert WordMonth(fields[1]) == Err(DateException(InvalidMonth));
    }
  }

  /** The fields of a date whose day and month are digit strings, and
      their values. */
  lemma DigitDateFields(date: string, day: string, month: string, year: string, rest: string)
    requires day != [] && AllDigits(day) && DigitsValue(day) <= IntMax
    requires month != [] && AllDigits(month) && DigitsValue(month) <= IntMax
    requires year != [] && '/' !in year
    requires rest == [] || rest[0] == '/'
    requires date == day + "/" + month + "/" + year + rest
    ensures var fields := Split(date, '/');
      |fields| >= 3 && fields[0] == day && fields[1] == month && fields[2] == year
      && ParseInt(day) == Some(DigitsValue(day)) && ParseInt(month) == Some(DigitsValue(month))
  {
    NoSlashInDigits(day);
    NoSlashInDigits(month);
    SplitDateFields(day, month, year, rest);
    ParseDigits(day);
    ParseDigits(month);
  }

  /** A date whose day and month are digit strings renders as the day text
      verbatim with its suffix, " of ", the month name, the year text
      verbatim, and ", "; a month outside 1..12 is a DateException. */
  lemma GetDateOfFields(day: string, month: string, year: string, rest: string)
    requires day != [] && AllDigits(day) && DigitsValue(day) <= IntMax
    requires month != [] && AllDigits(month) && DigitsValue(month) <= IntMax
    requires year != [] && '/' !in year
    requires rest == [] || rest[0] == '/'
    ensures var m := DigitsValue(month);
      GetDate(day + "/" + month + "/" + year + rest)
      == if 1 <= m <= 12
         then Ok(day + DaySuffix(DigitsValue(day)) + " of " + MonthNames[m - 1] + " " + year + ", ")
         else Err(DateException(InvalidMonth))
  {
    var date := day + "/" + month + "/" + year + rest;
    DigitDateFields(date, day, month, year, rest);
    GetDateOfParsedFields(date, DigitsValue(day), DigitsValue(month));
  }

  // ---------------------------------------------------------------------
  // Times
  // ---------------------------------------------------------------------

  /** getHours: the hour on a 12-hour dial as this code writes it: 0 is
      "12", 1 to 9 lose their leading character, 10 and 11 are kept as
      given, 12 to 24 are written as their remainder modulo 12 (so 12 and
      24 are "0"); above 24 is a DateException. */
  function GetHours(hours: string): (r: Result<string>)
    ensures ParseInt(hours).None? ==> r == Err(NumberFormatFault)
    ensures ParseInt(hours).Some? && ParseInt(hours).value > 24 ==> r == Err(DateException(InvalidTime))
    ensures r.Ok? ==> ParseInt(hours).Some? && ParseInt(hours).value <= 24
  {
    var hourNum :- ParseIntOrThrow(hours);
    if hourNum > 24 then Err(DateException(InvalidTime))
    else if hourNum < 12 then
      if hourNum == 0 then Ok("12")
      else if hourNum < 10 then
        if |hours| < 2 then Err(IndexOutOfBoundsFault) else Ok(hours[1..2])
      else Ok(hours)
    else Ok(Decimal(hourNum % 12))
  }

  /** getMinutes: above 60 is a DateException; 1 to 60 are "." and the two
      characters as given; 0 (and below) writes nothing. */
  function GetMinutes(minutes: string): (r: Result<string>)
    ensures ParseInt(minutes).None? ==> r == Err(NumberFormatFault)
    ensures ParseInt(minutes).Some? && ParseInt(minutes).value > 60 ==> r == Err(DateException(InvalidTime))
    ensures ParseInt(minutes).Some? && 0 < ParseInt(minutes).value <= 60 ==> r == Ok("." + minutes)
    ensures ParseInt(minutes).Some? && ParseInt(minutes).value <= 0 ==> r == Ok("")
  {
    var minNum :- ParseIntOrThrow(minutes);
    if minNum > 60 then Err(DateException(InvalidTime))
    else if minNum > 0 then Ok("." + minutes)
    else Ok("")
  }

  /** getTime: the hour text, the minute text, then "am" before noon and
      "pm" from hour 12 on. */
  function GetTime(time: string): (r: Result<string>)
    ensures r.Err? ==> r.error.IsRuntimeFault() || r.error == DateException(InvalidTime)
    ensures r.Ok? ==> |time| >= 4
  {
    if |time| < 2 then Err(IndexOutOfBoundsFault)
    else
      var hours := time[..2];
      var hourText :- GetHours(hours);
      if |time| < 4 then Err(IndexOutOfBoundsFault)
      else
        var minutes := time[2..4];
        var minuteText :- GetMinutes(minutes);
        match ParseInt(hours)
        case None => Err(NumberFormatFault)
        case Some(hourNum) => Ok(hourText + minuteText + (if hourNum < 12 then "am" else "pm"))
  }

  /** Only the first four characters of the time are read. */
  lemma GetTimeReadsFourCharacters(time: string)
    requires |time| >= 4
    ensures GetTime(time) == GetTime(time[..4])
  {
    assert time[..4][..2] == time[..2];
    assert time[..4][2..4] == time[2..4];
  }

  /** The hour a 24-hour clock value `h` shows in this code's 12-hour text. */
  function ClockHour(h: nat): string
  {
    if h == 0 then "12" else Decimal(h % 12)
  }

  lemma TwoDigits(s: string)
    requires |s| == 2 && AllDigits(s)
    ensures DigitsValue(s) == 10 * DigitValue(s[0]) + DigitValue(s[1])
    ensures DigitsValue(s) <= IntMax && ParseInt(s) == Some(DigitsValue(s))
  {
    var first := s[..1];
    assert first[..0] == [];
    assert DigitsValue(first) == DigitValue(s[0]);
    assert s[..|s| - 1] == first;
    ParseDigits(s);
  }

  /** Proof step: an hour below 12 is its own remainder (kept apart so that
      the hour lemmas stay small for the solver). */
  lemma BelowTwelve(h: nat)
    requires h < 12
    ensures h % 12 == h
  {
  }

  /** An hour from 1 to 9, written with a leading zero, loses the zero. */
  lemma SingleDigitHour(hours: string)
    requires |hours| == 2 && AllDigits(hours) && 1 <= DigitsValue(hours) < 10
    ensures GetHours(hours) == Ok(ClockHour(DigitsValue(hours)))
  {
    TwoDigits(hours);
    var h := DigitsValue(hours);
    assert 10 * DigitValue(hours[0]) <= h;
    var c := hours[1];
    assert DigitValue(c) == h;
    assert c == DigitChar(h);
    assert hours[1..2] == [c];
    BelowTwelve(h);
    assert ClockHour(h) == Decimal(h) == [c];
    assert ParseIntOrThrow(hours) == Ok(h);
  }

  /** Hours 10 and 11 are kept as written. */
  lemma TenOrElevenHour(hours: string)
    requires |hours| == 2 && AllDigits(hours) && 10 <= DigitsValue(hours) < 12
    ensures GetHours(hours) == Ok(ClockHour(DigitsValue(hours)))
  {
    TwoDigits(hours);
    DecimalOfDigits(hours);
    BelowTwelve(DigitsValue(hours));
  }

  /** Two hour digits: above 24 is a DateException, otherwise the text is
      the 12-hour dial value of the hour. */
  lemma GetHoursOfDigits(hours: string)
    requires |hours| == 2 && AllDigits(hours)
    ensures var h := DigitsValue(hours);
      GetHours(hours) == if h > 24 then Err(DateException(InvalidTime)) else Ok(ClockHour(h))
  {
    TwoDigits(hours);
    var h := DigitsValue(hours);
    if 1 <= h < 10 {
      SingleDigitHour(hours);
    } else if 10 <= h < 12 {
      TenOrElevenHour(hours);
    }
  }

  /** A time of four digits HHMM: an hour above 24 or a minute above 60 is
      a DateException; otherwise the text is the 12-hour dial value of the
      hour, then "." and MM unless the minute is 0, then "am" before hour
      12 and "pm" from it. */
  lemma GetTimeOfDigits(time: string)
    requires |time| == 4 && AllDigits(time)
    ensures var h, m := DigitsValue(time[..2]), DigitsValue(time[2..]);
      GetTime(time)
      == if h > 24 || m > 60 then Err(DateException(InvalidTime))
         else Ok(ClockHour(h) + (if m == 0 then "" else "." + time[2..])
                 + (if h < 12 then "am" else "pm"))
  {
    var hours, minutes := time[..2], time[2..];
    assert time[2..4] == minutes;
    TwoDigits(hours);
    TwoDigits(minutes);
    GetHoursOfDigits(hours);
  }

  /** GetTimeOfDigits with the hour and minute values given as numbers, the
      form the examples below use so that none of them evaluates DigitsValue. */
  lemma GetTimeOfClock(time: string, h: nat, m: nat)
    requires |time| == 4 && AllDigits(time)
    requires 10 * DigitValue(time[0]) + DigitValue(time[1]) == h
    requires 10 * DigitValue(time[2]) + DigitValue(time[3]) == m
    ensures GetTime(time)
      == if h > 24 || m > 60 then Err(DateException(InvalidTime))
         else Ok(ClockHour(h) + (if m == 0 then "" else "." + time[2..])
                 + (if h < 12 then "am" else "pm"))
  {
    TwoDigits(time[..2]);
    TwoDigits(time[2..]);
    GetTimeOfDigits(time);
  }

  // Examples, among them the quirks of hour 12 and hour 24, and the minute
  // 60 that is accepted.

  // Each example is proved in two steps: a `...Text` lemma that only
  // assembles the literal text from its parts, and the example itself, which
  // applies GetTimeOfClock. The split keeps each proof small for the solver.

  lemma MidnightText()
    ensures ClockHour(0) + "" + "am" == "12am"
  {
  }

  lemma EveningText()
    ensures ClockHour(18) + "" + "pm" == "6pm"
  {
  }

  lemma HalfPastNoonText()
    ensures ClockHour(12) + ("." + "30") + "pm" == "0.30pm"
  {
  }

  lemma Hour24Text()
    ensures ClockHour(24) + "" + "pm" == "0pm"
  {
  }

  lemma Minute60Text()
    ensures ClockHour(9) + ("." + "60") + "am" == "9.60am"
  {
  }

  lemma ElevenText()
    ensures ClockHour(11) + ("." + "05") + "am" == "11.05am"
  {
    assert Decimal(11) == "11" by {
      assert Decimal(1) == "1";
    }
  }

  lemma MidnightExample()
    ensures GetTime("0000") == Ok("12am")
  {
    GetTimeOfClock("0000", 0, 0);
    MidnightText();
  }

  lemma EveningExample()
    ensures GetTime("1800") == Ok("6pm")
  {
    GetTimeOfClock("1800", 18, 0);
    EveningText();
  }

  lemma HalfPastNoonExample()
    ensures GetTime("1230") == Ok("0.30pm")
  {
    GetTimeOfClock("1230", 12, 30);
    assert "1230"[2..] == "30";
    HalfPastNoonText();
  }

  lemma Hour24Example()
    ensures GetTime("2400") == Ok("0pm")
  {
    GetTimeOfClock("2400", 24, 0);
    Hour24Text();
  }

  lemma Minute60Example()
    ensures GetTime("0960") == Ok("9.60am")
  {
    GetTimeOfClock("0960", 9, 60);
    assert "0960"[2..] == "60";
    Minute60Text();
  }

  lemma ElevenExample()
    ensures GetTime("1105") == Ok("11.05am")
  {
    GetTimeOfClock("1105", 11, 5);
    assert "1105"[2..] == "05";
    ElevenText();
  }

  lemma OutOfRangeTimeExamples()
    ensures GetTime("2500") == Err(DateException(InvalidTime))
    ensures GetTime("1261") == Err(DateException(InvalidTime))
  {
    GetTimeOfClock("2500", 25, 0);
    GetTimeOfClock("1261", 12, 61);
  }

  /** A well-formed `day/month/year` date, with the field values given. */
  lemma GetDateOfValues(day: string, month: string, year: string, d: nat, m: nat)
    requires day != [] && AllDigits(day) && DigitsValue(day) == d <= IntMax
    requires month != [] && AllDigits(month) && DigitsValue(month) == m
    requires 1 <= m <= 12
    requires year != [] && '/' !in year
    ensures GetDate(day + "/" + month + "/" + year)
         == Ok(day + DaySuffix(d) + " of " + MonthNames[m - 1] + " " + year + ", ")
  {
    var date := day + "/" + month + "/" + year;
    assert date + "" == date;
    DigitDateFields(date, day, month, year, "");
    GetDateOfParsedFields(date, d, m);
  }

  // Examples of dates, with the suffix quirk on the 21st.

  // As for the times: each `...Text` lemma only assembles the literal text,
  // and the example applies GetDateOfValues.

  lemma ThirdOfJuneText()
    ensures "3" + DaySuffix(3) + " of " + MonthNames[5] + " " + "2019" + ", " == "3rd of June 2019, "
  {
    assert DaySuffix(3) == "rd" && MonthNames[5] == "June";
  }

  lemma EleventhText()
    ensures "11" + DaySuffix(11) + " of " + MonthNames[0] + " " + "2020" + ", " == "11th of January 2020, "
  {
    assert DaySuffix(11) == "th" && MonthNames[0] == "January";
  }

  lemma TwentyFirstText()
    ensures "21" + DaySuffix(21) + " of " + MonthNames[11] + " " + "2019" + ", " == "21th of December 2019, "
  {
    assert DaySuffix(21) == "th" && MonthNames[11] == "December";
  }

  lemma ThirdOfJuneExample()
    ensures GetDate("3/6/2019") == Ok("3rd of June 2019, ")
  {
    ThirdOfJuneText();
    assert "3/6/2019" == "3" + "/" + "6" + "/" + "2019";
    GetDateOfValues("3", "6", "2019", 3, 6);
  }

  lemma EleventhExample()
    ensures GetDate("11/1/2020") == Ok("11th of January 2020, ")
  {
    EleventhText();
    assert "11/1/2020" == "11" + "/" + "1" + "/" + "2020";
    assert DigitsValue("11") == 11 by {
      assert "11"[..1] == "1";
    }
    GetDateOfValues("11", "1", "2020", 11, 1);
  }

  lemma TwentyFirstExample()
    ensures GetDate("21/12/2019") == Ok("21th of December 2019, ")
  {
    TwentyFirstText();
    assert "21/12/2019" == "21" + "/" + "12" + "/" + "2019";
    assert DigitsValue("21") == 21 by {
      assert "21"[..1] == "2";
    }
    assert DigitsValue("12") == 12 by {
      assert "12"[..1] == "1";
    }
    GetDateOfValues("21", "12", "2019", 21, 12);
  }

  lemma ThirteenthMonthExample()
    ensures GetDate("1/13/2019") == Err(DateException(InvalidMonth))
  {
    assert "1/13/2019" == "1" + "/" + "13" + "/" + "2019" + "";
    GetDateOfFields("1", "13", "2019", "");
  }
}
