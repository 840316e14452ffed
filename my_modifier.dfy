// The custom modifier library shipped beside the converter
// (CustomModifier/MyModifier.cs): five value transformations looked up by
// their exact, case-sensitive names.

module MyModifiers {
  import opened Wrappers
  import opened DotNet

  datatype CustomModifier =
    | EncodeValue
    | UnitToMilliUnit
    | FormatMerlinLatestDateAsXsdDate
    | FormatMerlinEarliestDateAsXsdDate
    | SetToTitleCasingOfLabel

  /** The name each modifier is registered under. */
  function RegisteredName(c: CustomModifier): string
  {
    match c
    case EncodeValue => "encodevalue"
    case UnitToMilliUnit => "unitTomilliunit"
    case FormatMerlinLatestDateAsXsdDate => "formatmerlinlatestdateasxsddate"
    case FormatMerlinEarliestDateAsXsdDate => "formatmerlinearliestdateasxsddate"
    case SetToTitleCasingOfLabel => "settotitlecasingoflabel"
  }

  /** GetCustomModifierMethod: the modifier registered under exactly this
      name, or none (C#'s null). */
  function GetCustomModifierMethod(methodName: string): (r: Option<CustomModifier>)
    ensures r.Some? ==> RegisteredName(r.value) == methodName
    ensures r.None? ==> forall c: CustomModifier :: RegisteredName(c) != methodName
  {
    match methodName
    case "encodevalue" => Some(EncodeValue)
    case "unitTomilliunit" => Some(UnitToMilliUnit)
    case "formatmerlinlatestdateasxsddate" => Some(FormatMerlinLatestDateAsXsdDate)
    case "formatmerlinearliestdateasxsddate" => Some(FormatMerlinEarliestDateAsXsdDate)
    case "settotitlecasingoflabel" => Some(SetToTitleCasingOfLabel)
    case _ => None
  }

  /** Every modifier is found under its registered name. */
  lemma LookupFindsRegistered(c: CustomModifier)
    ensures GetCustomModifierMethod(RegisteredName(c)) == Some(c)
  {
  }

  /** EncodeValue: spaces and dots become underscores, then the ends are trimmed. */
  function EncodeValueOf(input: string): (r: string)
    ensures ' ' !in r && '.' !in r
    ensures |r| <= |input|
  {
    var spaced := Substitute(input, ' ', '_');
    ReplaceCharByChar(input, ' ', '_');
    ReplaceCharByChar(spaced, '.', '_');
    SubstituteRemoves(input, ' ', '_');
    SubstituteRemoves(spaced, '.', '_');
    TrimAddsNothing(Substitute(spaced, '.', '_'));
    Trim(Replace(Replace(input, " ", "_"), ".", "_"))
  }

  /** Encoding an encoded value changes nothing. */
  lemma EncodeValueIdempotent(input: string)
    ensures EncodeValueOf(EncodeValueOf(input)) == EncodeValueOf(input)
  {
    var e := EncodeValueOf(input);
    ReplaceCharByChar(e, ' ', '_');
    assert Substitute(e, ' ', '_') == e;
    ReplaceCharByChar(e, '.', '_');
    assert Substitute(e, '.', '_') == e;
    var u := Replace(Replace(input, " ", "_"), ".", "_");
    TrimIdempotent(u);
  }

  /** The first run of ASCII digits '0'..'9' in s, standing in for
      Regex.Match(s, @"\d+").Value; "" when s has no such digit. .NET's \d
      also matches the other Unicode decimal digits, which this leaves out. */
  function FirstDigitRun(s: string): (r: string)
    ensures AllDigits(r)
    ensures r == "" ==> forall i :: 0 <= i < |s| ==> !IsAsciiDigit(s[i])
  {
    if |s| == 0 then ""
    else if IsAsciiDigit(s[0]) then LeadingDigits(s)
    else FirstDigitRun(s[1..])
  }

  function LeadingDigits(s: string): (r: string)
    ensures AllDigits(r) && |r| <= |s| && r == s[..|r|]
    ensures |r| < |s| ==> !IsAsciiDigit(s[|r|])
  {
    if |s| > 0 && IsAsciiDigit(s[0]) then [s[0]] + LeadingDigits(s[1..]) else ""
  }

  /** FormatProductionDateToXsdDateFormat: a year, negative for BC, with the
      given month and day; "" when no year can be read. */
  function FormatProductionDate(date: string, month: int, day: int): (r: string)
    ensures Contains(Trim(ToLower(date)), "bc") ==> r == "" || r[0] == '-'
    ensures !Contains(Trim(ToLower(date)), "bc") ==> (r != "" <==> ParseInt32(Trim(date)).Some?)
    ensures r != "" ==> EndsWith(r, MonthDay(month, day))
  {
    var isBC := Contains(Trim(ToLower(date)), "bc");
    var yearString := if isBC then FirstDigitRun(date) else Trim(date);
    match ParseInt32(yearString)
    case Some(year) =>
      var actualYear := if isBC then "-" + FormatPadded(year, 4) else FormatPadded(year, 4);
      AppendedSuffix(actualYear, MonthDay(month, day));
      actualYear + MonthDay(month, day)
    case None => ""
  }

  /** A BC date is the value of its first digit run, negated and padded to
      four digits, when that value fits in 32 bits; otherwise the date
      cannot be read. */
  lemma BcYearIsFirstDigitRun(date: string, month: int, day: int)
    requires Contains(Trim(ToLower(date)), "bc")
    ensures var d := FirstDigitRun(date);
      (|d| > 0 && DigitsValue(d) <= INT32_MAX ==>
         FormatProductionDate(date, month, day) == "-" + FormatPadded(DigitsValue(d), 4) + MonthDay(month, day)) &&
      (|d| == 0 || DigitsValue(d) > INT32_MAX ==> FormatProductionDate(date, month, day) == "")
  {
    var d := FirstDigitRun(date);
    if |d| > 0 {
      ParseDigits(d);
      if DigitsValue(d) <= INT32_MAX {
        ProductionOfYear(date, d, DigitsValue(d) as int, month, day);
      } else {
        NoProductionYear(date, d, month, day);
      }
    } else {
      ParseEmpty();
      NoProductionYear(date, d, month, day);
    }
  }

  lemma NoProductionYear(date: string, d: string, month: int, day: int)
    requires Contains(Trim(ToLower(date)), "bc") && d == FirstDigitRun(date) && ParseInt32(d).None?
    ensures FormatProductionDate(date, month, day) == ""
  {
  }

  lemma ParseEmpty()
    ensures ParseInt32("").None?
  {
  }

  lemma ProductionOfYear(date: string, d: string, year: int, month: int, day: int)
    requires Contains(Trim(ToLower(date)), "bc") && d == FirstDigitRun(date) && ParseInt32(d) == Some(year)
    ensures FormatProductionDate(date, month, day) == "-" + FormatPadded(year, 4) + MonthDay(month, day)
  {
  }

  /** The "-MM-DD" tail of a formatted date. */
  function MonthDay(month: int, day: int): string
  {
    "-" + FormatPadded(month, 2) + "-" + FormatPadded(day, 2)
  }

  /** FormatAcquisitionDateToXsdDateFormat: DateTime.Parse, then "yyyy-MM-dd". */
  function FormatAcquisitionDate(date: string, rt: Runtime): Result<string>
  {
    var d :- rt.parseDate(date);
    Ok(FormatPadded(d.year, 4) + "-" + FormatPadded(d.month, 2) + "-" + FormatPadded(d.day, 2))
  }

  /** FormatMerlinDateToXsdDateFormat: empty input is returned as it is; a
      text holding "BC" or "thC", or of length four, is a production date;
      anything else is an acquisition date. */
  function FormatMerlinDate(input: string, month: int, day: int, rt: Runtime): (r: Result<string>)
    ensures input == "" ==> r == Ok("")
    ensures input != "" && (Contains(input, "BC") || Contains(input, "thC") || |input| == 4) ==>
      r.Ok? && (r.value == "" || EndsWith(r.value, MonthDay(month, day)))
  {
    if input == "" then Ok(input)
    else if Contains(input, "BC") || Contains(input, "thC") || |input| == 4 then
      Ok(FormatProductionDate(input, month, day))
    else FormatAcquisitionDate(input, rt)
  }

  /** The meaning of each modifier on one value. */
  function ApplyCustom(c: CustomModifier, input: string, rt: Runtime): Result<string>
  {
    match c
    case EncodeValue => Ok(EncodeValueOf(input))
    case UnitToMilliUnit => rt.unitToMilliUnit(input)
    case FormatMerlinLatestDateAsXsdDate => FormatMerlinDate(input, 12, 31, rt)
    case FormatMerlinEarliestDateAsXsdDate => FormatMerlinDate(input, 1, 1, rt)
    case SetToTitleCasingOfLabel => Ok(rt.titleCase(input))
  }

  lemma {:induction false} DigitsPositive(s: string)
    requires |s| > 0 && AllDigits(s) && s[0] != '0'
    ensures DigitsValue(s) > 0
  {
    if |s| > 1 {
      DigitsPositive(s[..|s| - 1]);
    }
  }

  /** A digit string without a leading zero is its own rendering. */
  lemma {:induction false} RenderDigits(s: string)
    requires |s| > 0 && AllDigits(s) && s[0] != '0'
    ensures NatToString(DigitsValue(s)) == s
  {
    if |s| > 1 {
      var init := s[..|s| - 1];
      DigitsPositive(init);
      RenderDigits(init);
      var n := DigitsValue(s);
      assert n / 10 == DigitsValue(init);
      assert n % 10 == DigitValue(s[|s| - 1]);
    }
  }

  /** A four-digit year such as "1984" becomes the first day of that year
      as the earliest date (ApplyCustom passes 1 and 1) and the last day as
      the latest date (12 and 31). */
  lemma FourDigitYear(year: string, rt: Runtime)
    requires |year| == 4 && AllDigits(year) && year[0] != '0'
    ensures FormatMerlinDate(year, 1, 1, rt) == Ok(year + "-01-01")
    ensures FormatMerlinDate(year, 12, 31, rt) == Ok(year + "-12-31")
  {
    FirstAndLastDays();
    FourDigitDate(year, 1, 1, rt);
    FourDigitDate(year, 12, 31, rt);
  }

  /** A four-digit year dates the given month and day of itself. */
  lemma FourDigitDate(year: string, month: int, day: int, rt: Runtime)
    requires |year| == 4 && AllDigits(year) && year[0] != '0'
    ensures FormatMerlinDate(year, month, day, rt) == Ok(year + MonthDay(month, day))
  {
    FourDigitProduction(year, month, day);
    FourCharPath(year, month, day, rt);
  }

  /** The first and the last day of a year, as "-MM-dd". */
  lemma FirstAndLastDays()
    ensures MonthDay(1, 1) == "-01-01" && MonthDay(12, 31) == "-12-31"
  {
    assert FormatPadded(1, 2) == "01";
    assert FormatPadded(12, 2) == "12";
    assert FormatPadded(31, 2) == "31";
  }

  /** Text of length four is a production date. */
  lemma FourCharPath(input: string, month: int, day: int, rt: Runtime)
    requires |input| == 4
    ensures FormatMerlinDate(input, month, day, rt) == Ok(FormatProductionDate(input, month, day))
  {
  }

  /** A four-digit year without a leading zero, which is not BC, is a
      production date for itself. */
  lemma FourDigitProduction(year: string, month: int, day: int)
    requires |year| == 4 && AllDigits(year) && year[0] != '0'
    ensures FormatProductionDate(year, month, day) == year + MonthDay(month, day)
  {
    RenderDigits(year);
    var l := ToLower(year);
    assert l == year;
    TrimByKeeps(year, IsWhiteSpace);
    AbsentFirstChar(year, "bc");
    TrimByKeeps(year, IsNumberWhite);
    var n := DigitsValue(year);
    DigitsBelow(year);
    assert Power10(4) == 10000;
    assert ParseInt32(year) == Some(n);
    assert FormatPadded(n, 4) == year;
  }

  /** A century written as two digits and "thC", such as "13thC". */
  predicate CenturyText(c: string)
  {
    |c| == 5 && IsAsciiDigit(c[0]) && IsAsciiDigit(c[1]) && c[2] == 't' && c[3] == 'h' && c[4] == 'C'
  }

  /** A century such as "13thC" is a production date whose year cannot be
      read, so both date modifiers give "". */
  lemma CenturyIsUnread(century: string, rt: Runtime)
    requires CenturyText(century)
    ensures ApplyCustom(FormatMerlinEarliestDateAsXsdDate, century, rt) == Ok("")
    ensures ApplyCustom(FormatMerlinLatestDateAsXsdDate, century, rt) == Ok("")
  {
    assert Contains(century, "thC") by {
      assert century[2..5] == "thC";
      assert OccursAt(century, "thC", 2);
    }
    CenturyYearUnread(century, 1, 1);
    CenturyYearUnread(century, 12, 31);
    UnreadProductionDate(century, 1, 1, rt);
    UnreadProductionDate(century, 12, 31, rt);
  }

  /** A production date whose year cannot be read gives "". */
  lemma UnreadProductionDate(input: string, month: int, day: int, rt: Runtime)
    requires input != "" && Contains(input, "thC") && FormatProductionDate(input, month, day) == ""
    ensures FormatMerlinDate(input, month, day, rt) == Ok("")
  {
    ProductionPath(input, month, day, rt);
  }

  /** Without "BC" the whole text must parse as an int, and a century does
      not. */
  lemma CenturyYearUnread(century: string, month: int, day: int)
    requires CenturyText(century)
    ensures FormatProductionDate(century, month, day) == ""
  {
    CenturyNotBc(century);
    CenturyNotInt(century);
  }

  /** A century text does not hold "bc" once lower-cased and trimmed. */
  lemma CenturyNotBc(century: string)
    requires CenturyText(century)
    ensures !Contains(Trim(ToLower(century)), "bc")
  {
    var l := ToLower(century);
    assert 'b' !in l by {
      assert forall i :: 0 <= i < |century| ==> l[i] == LowerChar(century[i]);
    }
    TrimByKeeps(l, IsWhiteSpace);
    AbsentFirstChar(l, "bc");
  }

  /** A century text is its own trim and does not parse as an int. */
  lemma CenturyNotInt(century: string)
    requires CenturyText(century)
    ensures Trim(century) == century && ParseInt32(century).None?
  {
    TrimByKeeps(century, IsWhiteSpace);
    TrimByKeeps(century, IsNumberWhite);
    assert !IsAsciiDigit(century[2]);
  }

  /** A BC century written as two digits, "thC" and " BC", such as
      "12thC BC". */
  predicate BcCenturyText(c: string)
  {
    |c| == 8 && CenturyText(c[..5]) && c[5] == ' ' && c[6] == 'B' && c[7] == 'C'
  }

  /** With "BC" the year is the first run of digits, so a BC century such
      as "12thC BC" becomes the year -12, that is "-0012" (ProductionPath
      sends it here). */
  lemma BcCenturyTakesFirstDigits(century: string, month: int, day: int)
    requires BcCenturyText(century) && century[0] != '0'
    ensures FormatProductionDate(century, month, day) == ['-', '0', '0', century[0], century[1]] + MonthDay(month, day)
  {
    BcCenturyIsBc(century);
    BcCenturyDigits(century);
    assert century[..2] == [century[0], century[1]];
    assert IsAsciiDigit(century[..5][0]) && IsAsciiDigit(century[..5][1]);
    TwoDigitYear(century[0], century[1]);
  }

  /** A BC century holds "bc" once lower-cased and trimmed. */
  lemma BcCenturyIsBc(century: string)
    requires BcCenturyText(century)
    ensures Contains(Trim(ToLower(century)), "bc")
  {
    var l := ToLower(century);
    assert l[6..8] == "bc" by {
      assert l[6] == LowerChar(century[6]) && l[7] == LowerChar(century[7]);
    }
    assert century[..5][0] == century[0];
    TrimByKeeps(l, IsWhiteSpace);
    assert OccursAt(l, "bc", 6);
  }

  /** The first digit run of a BC century is its two leading digits. */
  lemma BcCenturyDigits(century: string)
    requires BcCenturyText(century)
    ensures FirstDigitRun(century) == century[..2]
  {
    assert century[..5][0] == century[0] && century[..5][1] == century[1] && century[..5][2] == century[2];
    assert LeadingDigits(century[2..]) == "";
    assert century[1..][1..] == century[2..];
    assert LeadingDigits(century[1..]) == [century[1]];
  }

  /** Two digits without a leading zero parse as an int and render padded
      to four digits with two leading zeros. */
  lemma TwoDigitYear(a: char, b: char)
    requires IsAsciiDigit(a) && IsAsciiDigit(b) && a != '0'
    ensures ParseInt32([a, b]) == Some(DigitsValue([a, b]) as int)
    ensures "-" + FormatPadded(DigitsValue([a, b]), 4) == ['-', '0', '0', a, b]
  {
    var d := [a, b];
    assert AllDigits(d) by { assert d[0] == a && d[1] == b; }
    TrimByKeeps(d, IsNumberWhite);
    DigitsBelow(d);
    assert Power10(2) == 100;
    RenderDigits(d);
    assert ZeroPad(d, 4) == ZeroPad("0" + d, 4) == ZeroPad("0" + ("0" + d), 4);
    assert "0" + ("0" + d) == ['0', '0', a, b];
  }

  /** A non-empty text holding "BC" or "thC" is read as a production date. */
  lemma ProductionPath(input: string, month: int, day: int, rt: Runtime)
    requires input != "" && (Contains(input, "BC") || Contains(input, "thC"))
    ensures FormatMerlinDate(input, month, day, rt) == Ok(FormatProductionDate(input, month, day))
  {
  }
}
