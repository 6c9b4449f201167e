/**
  `formatDateTime(date)` from src/utils/formatDateTime.ts: renders a date as
  `YYYY/MM/DD HH:mm`, the month, day, hour and minute each padded with "0" to
  two characters by `formatNumber`.  A date is modelled by the five fields the
  function reads; turning a string into a date is the host's `Date` parser,
  which is a parameter here.
 */
module DateTime {
  import opened Optional
  import opened Decimal
  import opened NumberFormat

  /** The fields read from a `Date`: `getFullYear()`, the 0-based
      `getMonth()`, `getDate()`, `getHours()` and `getMinutes()`. */
  datatype Date = Date(fullYear: int, month: nat, day: nat, hours: nat, minutes: nat)

  /** The ranges a host `Date` keeps its fields in. */
  predicate ValidDate(d: Date) {
    d.month < 12 && 1 <= d.day <= 31 && d.hours < 24 && d.minutes < 60
  }

  /** The argument of formatDateTime: a `Date`, or a string to be parsed. */
  datatype DateArg = DateValue(date: Date) | DateText(text: string)

  /** A `Date` argument is used as it is; a string goes through the parser. */
  function ToDate(arg: DateArg, parseDate: string -> Date): (d: Date)
  {
    match arg
    case DateValue(date) => date
    case DateText(text) => parseDate(text)
  }

  /** The rendering of a date's fields: the year as printed, then the month
      number (one more than the month index), day, hour and minute. */
  function Format(d: Date): (r: string)
    ensures |r| >= |IntToString(d.fullYear)| + 12
    ensures r[..|IntToString(d.fullYear)|] == IntToString(d.fullYear)
    ensures ValidDate(d) ==>
              var y := |IntToString(d.fullYear)|;
              && |r| == y + 12
              && r[y] == '/' && r[y + 3] == '/' && r[y + 6] == ' ' && r[y + 9] == ':'
              && HasField(r, y + 1, d.month + 1)
              && HasField(r, y + 4, d.day)
              && HasField(r, y + 7, d.hours)
              && HasField(r, y + 10, d.minutes)
  {
    var year := IntToString(d.fullYear);
    var mm := FormatNumber(d.month + 1, 2);
    var dd := FormatNumber(d.day, 2);
    var hh := FormatNumber(d.hours, 2);
    var mi := FormatNumber(d.minutes, 2);
    FieldsFit(d);
    Layout(year, mm, dd, hh, mi);
    Join(year, mm, dd, hh, mi)
  }

  /** In-range fields are padded to exactly two digits denoting them. */
  lemma FieldsFit(d: Date)
    ensures ValidDate(d) ==>
              && |FormatNumber(d.month + 1, 2)| == 2 && AllDigits(FormatNumber(d.month + 1, 2))
              && ParseNat(FormatNumber(d.month + 1, 2)) == d.month + 1
              && |FormatNumber(d.day, 2)| == 2 && AllDigits(FormatNumber(d.day, 2))
              && ParseNat(FormatNumber(d.day, 2)) == d.day
              && |FormatNumber(d.hours, 2)| == 2 && AllDigits(FormatNumber(d.hours, 2))
              && ParseNat(FormatNumber(d.hours, 2)) == d.hours
              && |FormatNumber(d.minutes, 2)| == 2 && AllDigits(FormatNumber(d.minutes, 2))
              && ParseNat(FormatNumber(d.minutes, 2)) == d.minutes
  {
    if ValidDate(d) {
      TwoDigits(d.month + 1);
      TwoDigits(d.day);
      TwoDigits(d.hours);
      TwoDigits(d.minutes);
    }
  }

  /** The template literal of formatDateTime.ts. */
  function Join(year: string, mm: string, dd: string, hh: string, mi: string): string {
    year + "/" + mm + "/" + dd + " " + hh + ":" + mi
  }

  /** Where each piece of the template lands in the joined text. */
  lemma Layout(year: string, mm: string, dd: string, hh: string, mi: string)
    requires |mm| >= 2 && |dd| >= 2 && |hh| >= 2 && |mi| >= 2
    ensures var r := Join(year, mm, dd, hh, mi);
            var y := |year|;
            && |r| >= y + 12
            && r[..y] == year
            && (|mm| == 2 && |dd| == 2 && |hh| == 2 && |mi| == 2 ==>
                  && |r| == y + 12
                  && r[y] == '/' && r[y + 3] == '/' && r[y + 6] == ' ' && r[y + 9] == ':'
                  && r[y + 1..y + 3] == mm && r[y + 4..y + 6] == dd
                  && r[y + 7..y + 9] == hh && r[y + 10..y + 12] == mi)
  {
  }

  /** `formatDateTime(date)`: for a date whose fields are in range, the
      `YYYY/MM/DD HH:mm` layout after the printed year, from which every
      field of the date can be read back. */
  function FormatDateTime(arg: DateArg, parseDate: string -> Date): (r: string)
    ensures var d := ToDate(arg, parseDate);
            var y := |IntToString(d.fullYear)|;
            ValidDate(d) ==>
              && |r| == y + 12
              && r[..y] == IntToString(d.fullYear)
              && r[y] == '/' && r[y + 3] == '/' && r[y + 6] == ' ' && r[y + 9] == ':'
              && ParseDateTime(r).Just? && ParseDateTime(r).value == d
  {
    var d := ToDate(arg, parseDate);
    if ValidDate(d) then
      FormatRoundTrip(d);
      Format(d)
    else
      Format(d)
  }

  /** A `Date` argument never reaches the string parser: whatever parser is
      supplied, the output is the rendering of that date's own fields. */
  lemma DateArgumentUsedDirectly(d: Date, parseDate: string -> Date, otherParser: string -> Date)
    ensures FormatDateTime(DateValue(d), parseDate) == FormatDateTime(DateValue(d), otherParser) == Format(d)
  {
  }

  /** With a four-digit year the separators sit at fixed positions and the
      text is 16 characters long. */
  lemma FourDigitYearLayout(d: Date)
    requires ValidDate(d) && 1000 <= d.fullYear <= 9999
    ensures var r := Format(d);
            |r| == 16 && r[4] == '/' && r[7] == '/' && r[10] == ' ' && r[13] == ':'
  {
    NatToStringLength(d.fullYear, 4);
    NatToStringLength(d.fullYear, 3);
    assert Pow10(3) == 1000 && Pow10(4) == 10000;
  }

  /** The two characters of `s` at `at` are digits denoting `v`. */
  predicate HasField(s: string, at: nat, v: nat) {
    at + 2 <= |s| && AllDigits(s[at..at + 2]) && ParseNat(s[at..at + 2]) == v
  }

  /** Reads a `YYYY/MM/DD HH:mm` text back into date fields; the year is
      everything before the last twelve characters. */
  function ParseDateTime(s: string): (r: Maybe<Date>)
    ensures r.Just? ==> ValidDate(r.value)
  {
    if |s| < 13 then Nothing
    else
      var y := |s| - 12;
      if s[y] == '/' && s[y + 3] == '/' && s[y + 6] == ' ' && s[y + 9] == ':'
         && AllDigits(s[y + 1..y + 3]) && AllDigits(s[y + 4..y + 6])
         && AllDigits(s[y + 7..y + 9]) && AllDigits(s[y + 10..y + 12])
         && IsIntString(s[..y])
      then
        var month := ParseNat(s[y + 1..y + 3]);
        var d := Date(ParseInt(s[..y]), if month > 0 then month - 1 else 0,
                      ParseNat(s[y + 4..y + 6]), ParseNat(s[y + 7..y + 9]), ParseNat(s[y + 10..y + 12]));
        if month > 0 && ValidDate(d) then Just(d) else Nothing
      else Nothing
  }

  /** A text laid out as `Format` lays it out parses to the fields it holds. */
  lemma ParseLaidOut(s: string, d: Date)
    requires ValidDate(d)
    requires var y := |IntToString(d.fullYear)|;
             && |s| == y + 12
             && s[..y] == IntToString(d.fullYear)
             && s[y] == '/' && s[y + 3] == '/' && s[y + 6] == ' ' && s[y + 9] == ':'
             && HasField(s, y + 1, d.month + 1)
             && HasField(s, y + 4, d.day)
             && HasField(s, y + 7, d.hours)
             && HasField(s, y + 10, d.minutes)
    ensures ParseDateTime(s).Just? && ParseDateTime(s).value == d
  {
    ParseIntToString(d.fullYear);
  }

  /** Every field of a date survives formatting: parsing the text gives the
      date back. */
  lemma FormatRoundTrip(d: Date)
    requires ValidDate(d)
    ensures ParseDateTime(Format(d)).Just? && ParseDateTime(Format(d)).value == d
  {
    ParseLaidOut(Format(d), d);
  }

  /** Two dates are rendered alike exactly when they are the same date. */
  lemma FormatInjective(d1: Date, d2: Date)
    requires ValidDate(d1) && ValidDate(d2)
    ensures Format(d1) == Format(d2) <==> d1 == d2
  {
    FormatRoundTrip(d1);
    FormatRoundTrip(d2);
  }
}
