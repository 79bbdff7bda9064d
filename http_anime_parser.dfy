/**
 * The text-level decoders of the AniDB HTTP anime parser: episode numbers and
 * types ("S12", "3-4"), partial dates ("2008", "2008-12", "2008-12-31"), the
 * start/end dates of an anime, tags, relations and episodes, and the
 * unescaping of XML text. The XML navigation that finds each piece of text is
 * not part of this model: every parser takes the strings it would have read
 * (`TryGetProperty` and `TryGetAttribute` give "" for a missing element or
 * attribute).
 */
module HttpAnimeParser {
  import opened Wrappers
  import opened Runtime
  import opened Calendar
  import opened EpisodeTypes
  import opened AniDbCodes

  // ---------------------------------------------------------- episode numbers

  /** `int.TryParse` of a single non-blank character succeeds exactly on a digit. */
  lemma SingleCharParses(c: char)
    requires !IsWhiteSpace(c)
    ensures ParseInt32([c]).Some? <==> IsDigit(c)
  {
    assert TrimNumberWhite([c]) == [c];
    if IsDigit(c) {
      assert [c][..0] == [];
      assert DigitsValue([c]) == DigitValue(c);
      ParseDigits([c]);
    }
  }

  /** The switch on the upper-cased first character: C, S, O, T or P name a type, anything else is a regular episode. */
  function TypeOfFirstChar(c: char): (r: EpisodeType)
    ensures r == TypeOfLetter(UpperChar(c)).GetOr(Episode)
  {
    var letter := UpperChar(c);
    if letter == 'C' then Credits
    else if letter == 'S' then Special
    else if letter == 'O' then Other
    else if letter == 'T' then Trailer
    else if letter == 'P' then Parody
    else Episode
  }

  /** The switch reads back every type's own letter. */
  lemma LetterNamesType(t: EpisodeType)
    ensures TypeOfFirstChar(Letter(t)) == t
    ensures IsUpper(Letter(t)) && !IsWhiteSpace(Letter(t))
  {
    LetterRoundTrip(t);
  }

  /**
   * `GetEpisodeType`: a leading digit means a regular episode; otherwise the
   * first character names the type. `None` is the exception a blank text
   * raises.
   */
  function GetEpisodeType(fld: string): (r: Option<EpisodeType>)
    ensures r.None? <==> Trim(fld) == []
  {
    EpisodeTypeOf(Trim(fld))
  }

  /** `GetEpisodeType` once the text is trimmed. */
  function EpisodeTypeOf(t: string): (r: Option<EpisodeType>)
    ensures r.None? <==> t == []
    ensures r.Some? && !IsWhiteSpace(t[0]) ==> r.value == if IsDigit(t[0]) then Episode else TypeOfFirstChar(t[0])
  {
    if t == [] then None
    else
      assert t[..1] == [t[0]];
      if !IsWhiteSpace(t[0]) then SingleCharParses(t[0]); (if ParseInt32(t[..1]).Some? then Some(Episode) else Some(TypeOfFirstChar(t[0])))
      else if ParseInt32(t[..1]).Some? then Some(Episode) else Some(TypeOfFirstChar(t[0]))
  }

  /**
   * `GetEpisodeNumber`: drops the type letter of a special episode, then reads
   * an integer; failing that, the integer before the first '-' (the first
   * episode of a range). A failure is the exception `int.Parse` or the slice
   * raises.
   */
  function GetEpisodeNumber(fld: string, epType: EpisodeType): (r: Result<int32, string>)
    ensures Trim(fld) == [] ==> r.Fail?
  {
    EpisodeNumberOf(Trim(fld), epType)
  }

  /** `GetEpisodeNumber` once the text is trimmed. */
  function EpisodeNumberOf(t: string, epType: EpisodeType): (r: Result<int32, string>)
    ensures t == [] ==> r.Fail?
  {
    if epType != Episode && t == [] then Fail("ArgumentOutOfRangeException")
    else
      var number := if epType != Episode then t[1..] else t;
      match ParseInt32(number)
      case Some(n) => Ok(n)
      case None => ParseInt32OrThrow(Split(number, {'-'})[0])
  }

  /** A text with nothing to trim is decoded as it stands. */
  lemma DecodeTrimmed(s: string, epType: EpisodeType)
    requires Trim(s) == s
    ensures GetEpisodeType(s) == EpisodeTypeOf(s)
    ensures GetEpisodeNumber(s, epType) == EpisodeNumberOf(s, epType)
  {
  }

  /** How AniDB writes an episode number: the type's letter (none for a regular episode), then the number. */
  function EpNo(t: EpisodeType, n: nat): string {
    (if t == Episode then "" else [Letter(t)]) + ShowNat(n)
  }

  /** Decoding reads back both the type and the number of every episode number AniDB writes. */
  lemma {:induction false} EpNoRoundTrip(t: EpisodeType, n: nat)
    requires n <= Int32Max
    ensures GetEpisodeType(EpNo(t, n)) == Some(t)
    ensures GetEpisodeNumber(EpNo(t, n), t) == Ok(n)
  {
    var s := EpNo(t, n);
    EpNoIsTrimmed(t, n);
    DecodeTrimmed(s, t);
    EpNoDecodes(t, n, s);
  }

  /** An episode number as AniDB writes it has no white space to trim. */
  lemma EpNoIsTrimmed(t: EpisodeType, n: nat)
    ensures Trim(EpNo(t, n)) == EpNo(t, n)
  {
    var s := EpNo(t, n);
    var digits := ShowNat(n);
    LetterNamesType(t);
    assert s[|s| - 1] == digits[|digits| - 1];
    assert s[0] == if t == Episode then digits[0] else Letter(t);
    TrimOfClean(s);
  }

  lemma EpNoDecodes(t: EpisodeType, n: nat, s: string)
    requires n <= Int32Max && s == EpNo(t, n)
    ensures EpisodeTypeOf(s) == Some(t) && EpisodeNumberOf(s, t) == Ok(n)
  {
    if t == Episode {
      RegularDecodes(n, s);
    } else {
      SpecialDecodes(t, n, s);
    }
  }

  lemma RegularDecodes(n: nat, s: string)
    requires n <= Int32Max && s == ShowNat(n)
    ensures EpisodeTypeOf(s) == Some(Episode) && EpisodeNumberOf(s, Episode) == Ok(n)
  {
    ParseDigits(s);
  }

  lemma SpecialDecodes(t: EpisodeType, n: nat, s: string)
    requires n <= Int32Max && t != Episode && s == [Letter(t)] + ShowNat(n)
    ensures EpisodeTypeOf(s) == Some(t) && EpisodeNumberOf(s, t) == Ok(n)
  {
    LetterNamesType(t);
    assert s[0] == Letter(t);
    var digits := s[1..];
    assert digits == ShowNat(n);
    ParseDigits(digits);
  }

  /** A range "m-n" is a regular episode numbered by its first part. */
  lemma {:induction false} EpisodeRangeTakesFirst(m: nat, n: nat)
    requires m <= Int32Max
    ensures GetEpisodeType(ShowNat(m) + "-" + ShowNat(n)) == Some(Episode)
    ensures GetEpisodeNumber(ShowNat(m) + "-" + ShowNat(n), Episode) == Ok(m)
  {
    var a, b := ShowNat(m), ShowNat(n);
    var s := a + "-" + b;
    assert s == a + ['-'] + b;
    assert s[0] == a[0] && s[|s| - 1] == b[|b| - 1];
    DigitEnds(s);
    DecodeTrimmed(s, Episode);
    RangeDecodes(a, b, s, m);
  }

  lemma RangeDecodes(a: string, b: string, s: string, m: nat)
    requires a == ShowNat(m) && b != [] && AllDigits(b) && s == a + ['-'] + b && m <= Int32Max
    ensures EpisodeTypeOf(s) == Some(Episode) && EpisodeNumberOf(s, Episode) == Ok(m)
  {
    assert s[0] == a[0];
    ParseRejectsInnerChar(a, '-', b);
    SplitAfterPiece(a, '-', b, {'-'});
    ParseDigits(a);
  }

  /** A double episode "3-4" is episode 3. */
  lemma DoubleEpisodeExample()
    ensures GetEpisodeNumber("3-4", Episode) == Ok(3)
  {
    assert ShowNat(3) + "-" + ShowNat(4) == "3-4";
    EpisodeRangeTakesFirst(3, 4);
  }

  /** "S12" is special 12. */
  lemma SpecialExample()
    ensures GetEpisodeType("S12") == Some(Special) && GetEpisodeNumber("S12", Special) == Ok(12)
  {
    assert EpNo(Special, 12) == "S12" by {
      assert ShowNat(1) == "1";
      assert ShowNat(12) == "12";
    }
    EpNoRoundTrip(Special, 12);
  }

  /** A text that starts and ends with a digit has nothing to trim. */
  lemma DigitEnds(s: string)
    requires s != [] && IsDigit(s[0]) && IsDigit(s[|s| - 1])
    ensures Trim(s) == s
  {
    TrimOfClean(s);
  }

  // ---------------------------------------------------------- partial dates

  /**
   * `GetDate`: completes "yyyy", "yyyy-MM" or "yyyy-MM-dd" to a date; a
   * missing month is January for a start date and December for an end date,
   * a missing day the first or the last of the month. A missing or shorter
   * text gives `DateTime.UnixEpoch`; a failure is the exception `int.Parse`,
   * `Substring`, `DaysInMonth` or the `DateTime` constructor raises.
   */
  function GetDate(dateXml: Option<string>, isStartDate: bool): (r: Result<Date, string>)
    ensures r.Ok? ==> ValidDate(r.value)
    ensures dateXml.None? || |Trim(dateXml.value)| < 4 ==> r == Ok(UnixEpoch)
  {
    if dateXml.None? || |Trim(dateXml.value)| < 4 then Ok(UnixEpoch)
    else DateOfTrimmed(Trim(dateXml.value), isStartDate)
  }

  /** `GetDate` once the text is trimmed and has at least four characters. */
  function DateOfTrimmed(t: string, isStartDate: bool): (r: Result<Date, string>)
    requires |t| >= 4
    ensures r.Ok? ==> ValidDate(r.value)
  {
    match ParseInt32OrThrow(t[..4])
    case Fail(e) => Fail(e)
    case Ok(year) =>
      match MonthField(t, isStartDate)
      case Fail(e) => Fail(e)
      case Ok(month) =>
        match DayField(t, year, month, isStartDate)
        case Fail(e) => Fail(e)
        case Ok(day) => NewDate(year, month, day)
  }

  /** The month of a trimmed date text: the two characters at 5; without them, January or December. */
  function MonthField(t: string, isStartDate: bool): (r: Result<int32, string>)
    requires |t| >= 4
    ensures |t| == 4 ==> r == Ok(if isStartDate then 1 else 12)
    ensures |t| >= 7 ==> r == ParseInt32OrThrow(t[5..7])
  {
    if |t| > 4 then (if |t| < 7 then Fail("ArgumentOutOfRangeException") else ParseInt32OrThrow(t[5..7]))
    else Ok(if isStartDate then 1 else 12)
  }

  /** The day of a trimmed date text: the two characters at 8; without them, the first or the last of the month. */
  function DayField(t: string, year: int32, month: int32, isStartDate: bool): (r: Result<int, string>)
    ensures |t| >= 10 ==> r.Ok? == ParseInt32(t[8..10]).Some?
    ensures |t| >= 10 && r.Ok? ==> r.value == ParseInt32(t[8..10]).value
    ensures |t| <= 7 && isStartDate ==> r == Ok(1)
    ensures |t| <= 7 && !isStartDate && 1 <= year <= 9999 && 1 <= month <= 12 ==> r == Ok(DaysInMonth(year, month))
  {
    if |t| > 7 then
      if |t| < 10 then Fail("ArgumentOutOfRangeException")
      else match ParseInt32OrThrow(t[8..10])
        case Ok(d) => Ok(d as int)
        case Fail(e) => Fail(e)
    else if isStartDate then Ok(1)
    else if 1 <= year <= 9999 && 1 <= month <= 12 then Ok(DaysInMonth(year, month))
    else Fail("ArgumentOutOfRangeException")
  }

  /** `new DateTime(year, month, day)`: the date, or the exception an impossible date raises. */
  function NewDate(year: int, month: int, day: int): (r: Result<Date, string>)
    ensures r.Ok? <==> ValidDate(Date(year, month, day))
    ensures r.Ok? ==> r.value == Date(year, month, day)
  {
    if ValidDate(Date(year, month, day)) then Ok(Date(year, month, day)) else Fail("ArgumentOutOfRangeException")
  }

  /** A year written with four digits is read back. */
  lemma ReadYear(year: nat)
    requires 1 <= year <= 9999
    ensures ParseInt32OrThrow(Padded(year, 4)) == Ok(year)
  {
    assert Pow10(4) == 10000;
    ParseDigits(Padded(year, 4));
  }

  /** A month or day written with two digits is read back. */
  lemma ReadTwoDigits(n: nat)
    requires n < 100
    ensures ParseInt32OrThrow(Padded(n, 2)) == Ok(n)
  {
    assert Pow10(2) == 100;
    ParseDigits(Padded(n, 2));
  }

  /** `GetDate` on a trimmed text whose year, month and day fields read as a real date. */
  lemma GetDateFromFields(s: string, isStartDate: bool, year: int32, month: int32, day: int)
    requires Trim(s) == s && |s| >= 4
    requires ParseInt32OrThrow(s[..4]) == Ok(year)
    requires MonthField(s, isStartDate) == Ok(month)
    requires DayField(s, year, month, isStartDate) == Ok(day)
    requires ValidDate(Date(year, month, day))
    ensures GetDate(Some(s), isStartDate) == Ok(Date(year, month, day))
  {
    assert GetDate(Some(s), isStartDate) == DateOfTrimmed(s, isStartDate);
    assert DateOfTrimmed(s, isStartDate) == NewDate(year, month, day);
  }

  /** A text that starts and ends with a digit is decoded as it stands. */
  lemma GetDateOfDigits(s: string, isStartDate: bool)
    requires |s| >= 4 && IsDigit(s[0]) && IsDigit(s[|s| - 1])
    ensures GetDate(Some(s), isStartDate) == DateOfTrimmed(s, isStartDate)
  {
    DigitEnds(s);
  }

  /** A full date is read back as written, as a start date and as an end date. */
  lemma {:induction false} GetDateReadsFullDate(d: Date, isStartDate: bool)
    requires ValidDate(d)
    ensures GetDate(Some(FormatDate(d)), isStartDate) == Ok(d)
  {
    var s := FormatDate(d);
    FullDateSlices(d, s);
    assert s[0] == s[..4][0] && s[9] == s[8..10][1];
    GetDateOfDigits(s, isStartDate);
    FullDateDecodes(d, s, isStartDate);
  }

  lemma FullDateSlices(d: Date, s: string)
    requires ValidDate(d) && s == FormatDate(d)
    ensures s[..4] == Padded(d.year, 4) && s[5..7] == Padded(d.month, 2) && s[8..10] == Padded(d.day, 2)
  {
    assert s == Padded(d.year, 4) + "-" + Padded(d.month, 2) + "-" + Padded(d.day, 2);
  }

  lemma FullDateDecodes(d: Date, s: string, isStartDate: bool)
    requires ValidDate(d) && |s| == 10
    requires s[..4] == Padded(d.year, 4) && s[5..7] == Padded(d.month, 2) && s[8..10] == Padded(d.day, 2)
    ensures DateOfTrimmed(s, isStartDate) == Ok(d)
  {
    ReadYear(d.year);
    ReadTwoDigits(d.month);
    ReadTwoDigits(d.day);
  }

  /** "yyyy-MM" becomes the first day of the month for a start date and the last day for an end date. */
  lemma {:induction false} GetDateCompletesDay(year: nat, month: nat, isStartDate: bool)
    requires 1 <= year <= 9999 && 1 <= month <= 12
    ensures GetDate(Some(Padded(year, 4) + "-" + Padded(month, 2)), isStartDate)
            == Ok(Date(year, month, if isStartDate then 1 else DaysInMonth(year, month)))
  {
    var s := Padded(year, 4) + "-" + Padded(month, 2);
    YearMonthSlices(year, month, s);
    assert s[0] == s[..4][0] && s[6] == s[5..7][1];
    GetDateOfDigits(s, isStartDate);
    YearMonthDecodes(year, month, s, isStartDate);
  }

  lemma YearMonthSlices(year: nat, month: nat, s: string)
    requires s == Padded(year, 4) + "-" + Padded(month, 2)
    ensures |s| == 7 && s[..4] == Padded(year, 4) && s[5..7] == Padded(month, 2)
  {
  }

  lemma YearMonthDecodes(year: nat, month: nat, s: string, isStartDate: bool)
    requires 1 <= year <= 9999 && 1 <= month <= 12
    requires |s| == 7 && s[..4] == Padded(year, 4) && s[5..7] == Padded(month, 2)
    ensures DateOfTrimmed(s, isStartDate) == Ok(Date(year, month, if isStartDate then 1 else DaysInMonth(year, month)))
  {
    ReadYear(year);
    ReadTwoDigits(month);
  }

  /** "yyyy" becomes 1 January for a start date and 31 December for an end date. */
  lemma {:induction false} GetDateCompletesYear(year: nat, isStartDate: bool)
    requires 1 <= year <= 9999
    ensures GetDate(Some(Padded(year, 4)), isStartDate) == Ok(if isStartDate then Date(year, 1, 1) else Date(year, 12, 31))
  {
    var y := Padded(year, 4);
    GetDateOfDigits(y, isStartDate);
    YearDecodes(year, y, isStartDate);
  }

  lemma YearDecodes(year: nat, y: string, isStartDate: bool)
    requires 1 <= year <= 9999 && y == Padded(year, 4)
    ensures DateOfTrimmed(y, isStartDate) == Ok(if isStartDate then Date(year, 1, 1) else Date(year, 12, 31))
  {
    assert y[..4] == y;
    ReadYear(year);
  }

  // ---------------------------------------------------------- anime dates

  /** The formats `ParseDates` tries, in order, with `DateTime.TryParseExact`. */
  datatype DateFormat = YearMonthDay | YearMonth | YearOnly

  function AsValid(d: Date): (r: Option<Date>)
    ensures r.Some? <==> ValidDate(d)
    ensures r.Some? ==> r.value == d
  {
    if ValidDate(d) then Some(d) else None
  }

  /** `DateTime.TryParseExact` with "yyyy-MM-dd", "yyyy-MM" or "yyyy": exact digit counts, no white space. */
  function ParseExact(s: string, format: DateFormat): (r: Option<Date>)
    ensures r.Some? ==> ValidDate(r.value)
  {
    match format
    case YearMonthDay =>
      if |s| == 10 && s[4] == '-' && s[7] == '-' && AllDigits(s[..4]) && AllDigits(s[5..7]) && AllDigits(s[8..]) then
        AsValid(Date(DigitsValue(s[..4]), DigitsValue(s[5..7]), DigitsValue(s[8..])))
      else None
    case YearMonth =>
      if |s| == 7 && s[4] == '-' && AllDigits(s[..4]) && AllDigits(s[5..]) then
        AsValid(Date(DigitsValue(s[..4]), DigitsValue(s[5..]), 1))
      else None
    case YearOnly =>
      if |s| == 4 && AllDigits(s) then AsValid(Date(DigitsValue(s), 1, 1)) else None
  }

  /** A parsed date `ParseDates` keeps: neither `DateTime.UnixEpoch` nor `DateTime.MinValue`. */
  predicate Kept(d: Option<Date>) {
    d.Some? && d.value != UnixEpoch && d.value != MinValue
  }

  /** The first of `formats` that gives a kept date, tried in order. */
  function FirstKept(s: string, formats: seq<DateFormat>): (r: Option<Date>)
    ensures r.Some? ==> ValidDate(r.value) && r.value != UnixEpoch && r.value != MinValue
    ensures r.Some? ==> exists i :: 0 <= i < |formats| && ParseExact(s, formats[i]) == r
  {
    if formats == [] then None
    else if Kept(ParseExact(s, formats[0])) then ParseExact(s, formats[0])
    else
      var r := FirstKept(s, formats[1..]);
      assert forall i :: 1 <= i < |formats| ==> formats[i] == formats[1..][i - 1];
      r
  }

  /** The start or end date of an anime: the first of "yyyy-MM-dd", "yyyy-MM" and "yyyy" that gives a kept date; none for "". */
  function AniDbDate(s: string): (r: Option<Date>)
    ensures r.Some? ==> ValidDate(r.value) && r.value != UnixEpoch && r.value != MinValue
  {
    if s == "" then None else FirstKept(s, [YearMonthDay, YearMonth, YearOnly])
  }

  /** A written date is read back, unless it is one of the two placeholder dates. */
  lemma {:induction false} AniDbDateRoundTrip(d: Date)
    requires ValidDate(d) && d != UnixEpoch && d != MinValue
    ensures AniDbDate(FormatDate(d)) == Some(d)
  {
    var y, m, dd := Padded(d.year, 4), Padded(d.month, 2), Padded(d.day, 2);
    var s := FormatDate(d);
    assert s == y + "-" + m + "-" + dd;
    assert s[..4] == y && s[5..7] == m && s[8..] == dd;
    assert Pow10(4) == 10000 && Pow10(2) == 100;
  }

  /** The year AniDB gives for an anime that started in 1970 is taken for the placeholder and dropped. */
  lemma Year1970Dropped()
    ensures AniDbDate("1970") == None
  {
    assert DigitsValue("19") == 19 by {
      assert "19"[..1] == "1";
    }
    assert DigitsValue("197") == 197 by {
      assert "197"[..2] == "19";
    }
    assert DigitsValue("1970") == 1970 by {
      assert "1970"[..3] == "197";
    }
    assert ParseExact("1970", YearOnly) == Some(UnixEpoch);
  }

  /** `ParseDates`' last step: an end date earlier than the air date is moved up to it. */
  function ClampEnd(airDate: Option<Date>, endDate: Option<Date>): (r: Option<Date>)
    ensures r.Some? <==> endDate.Some?
    ensures r.Some? && airDate.Some? ==> !Before(r.value, airDate.value)
    ensures endDate.Some? && (airDate.None? || !Before(endDate.value, airDate.value)) ==> r == endDate
    ensures r.Some? ==> r == endDate || r == airDate
  {
    if endDate.Some? && airDate.Some? && Before(endDate.value, airDate.value) then airDate else endDate
  }

  /** `BeginYear`/`EndYear`: the year of a date, 0 without one. */
  function YearOf(d: Option<Date>): (r: int)
    ensures d.None? ==> r == 0
    ensures d.Some? && ValidDate(d.value) ==> 1 <= r <= 9999
  {
    if d.Some? then d.value.year else 0
  }

  /** An anime's titles as `ParseTitles` returns them; only whether a title is the main one matters here. */
  datatype ResponseTitle = ResponseTitle(title: string, isMain: bool)

  /** `titles.FirstOrDefault(t => t.TitleType == TitleType.Main)?.Title`. */
  function MainTitle(titles: seq<ResponseTitle>): (r: Option<string>)
    ensures r.None? <==> forall i :: 0 <= i < |titles| ==> !titles[i].isMain
    ensures r.Some? ==> exists i :: 0 <= i < |titles| && titles[i].isMain && titles[i].title == r.value &&
                                    forall j :: 0 <= j < i ==> !titles[j].isMain
  {
    if titles == [] then None
    else if titles[0].isMain then Some(titles[0].title)
    else
      var rest := MainTitle(titles[1..]);
      assert forall i :: 1 <= i < |titles| ==> titles[i] == titles[1..][i - 1];
      rest
  }

  /** `string.IsNullOrWhiteSpace`. */
  predicate IsNullOrWhiteSpace(s: Option<string>) {
    s.None? || forall i :: 0 <= i < |s.value| ==> IsWhiteSpace(s.value[i])
  }

  /**
   * The texts `ParseAnime` reads from the `<anime>` element: its `id` and
   * `restricted` attributes (None when absent, or when there is no such
   * element) and its child elements.
   */
  datatype AnimeXml = AnimeXml(id: Option<string>, description: string, animeType: string, episodeCount: string,
                               startDate: string, endDate: string, restricted: Option<string>,
                               url: string, picture: string)

  /** The anime record the parser fills in. */
  class ResponseAnime {
    const animeId: int32
    var description: string
    var animeType: AnimeType
    var episodeCount: int32
    var episodeCountNormal: int32
    var airDate: Option<Date>
    var endDate: Option<Date>
    var beginYear: int
    var endYear: int
    var isRestricted: bool
    var url: string
    var picname: string
    var mainTitle: string

    function Fields(): AnimeFields
      reads this
    {
      AnimeFields(animeId, description, animeType, episodeCount, episodeCountNormal, airDate, endDate,
                  beginYear, endYear, isRestricted, url, picname, mainTitle)
    }

    /** The record as the parser's object initialiser leaves it, before its dates are read. */
    constructor (animeId: int32, description: string, animeType: AnimeType, episodeCount: int32,
                 isRestricted: bool, url: string, picname: string, mainTitle: string)
      ensures Fields() == AnimeFields(animeId, description, animeType, episodeCount, episodeCount, None, None, 0, 0,
                                      isRestricted, url, picname, mainTitle)
    {
      this.animeId := animeId;
      this.description := description;
      this.animeType := animeType;
      this.episodeCount := episodeCount;
      episodeCountNormal := episodeCount;
      airDate := None;
      endDate := None;
      beginYear := 0;
      endYear := 0;
      this.isRestricted := isRestricted;
      this.url := url;
      this.picname := picname;
      this.mainTitle := mainTitle;
    }

    /**
     * `ParseDates`: sets AirDate and EndDate from the start and end texts,
     * never lets EndDate fall before AirDate, and derives BeginYear and
     * EndYear. The conversion through Tokyo time leaves a date unchanged.
     */
    method ParseDates(startText: string, endText: string)
      modifies this
      ensures description == old(description) && animeType == old(animeType) && episodeCount == old(episodeCount) && episodeCountNormal == old(episodeCountNormal) && isRestricted == old(isRestricted) && url == old(url) && picname == old(picname) && mainTitle == old(mainTitle)
      ensures airDate == AniDbDate(startText)
      ensures endDate == ClampEnd(airDate, AniDbDate(endText))
      ensures airDate.Some? && endDate.Some? ==> !Before(endDate.value, airDate.value)
      ensures beginYear == YearOf(airDate) && endYear == YearOf(endDate)
    {
      airDate := AniDbDate(startText);
      endDate := AniDbDate(endText);
      if endDate.Some? && airDate.Some? && Before(endDate.value, airDate.value) {
        endDate := airDate;
      }
      beginYear := if airDate.Some? then airDate.value.year else 0;
      endYear := if endDate.Some? then endDate.value.year else 0;
    }
  }

  /** The fields of a `ResponseAnime`, as a value. */
  datatype AnimeFields = AnimeFields(animeId: int32, description: string, animeType: AnimeType, episodeCount: int32,
                                     episodeCountNormal: int32, airDate: Option<Date>, endDate: Option<Date>,
                                     beginYear: int, endYear: int, isRestricted: bool, url: string,
                                     picname: string, mainTitle: string)

  /**
   * The record `ParseAnime` fills in: backticks in the description become
   * apostrophes, an unparsable episode count is 0, the anime is restricted
   * only when its attribute says "true", and the end date never precedes
   * the air date.
   */
  function ParsedAnime(animeId: int32, mainTitle: string, xml: AnimeXml): AnimeFields {
    var airDate := AniDbDate(xml.startDate);
    var endDate := ClampEnd(airDate, AniDbDate(xml.endDate));
    var count := ParseInt32(xml.episodeCount).GetOr(0);
    AnimeFields(animeId, ReplaceChar(xml.description, '`', '\''), AnimeTypeFromText(xml.animeType), count, count,
                airDate, endDate, YearOf(airDate), YearOf(endDate),
                RestrictedFlag(xml.restricted),
                xml.url, xml.picture, mainTitle)
  }

  function RestrictedFlag(restricted: Option<string>): bool {
    if restricted.Some? && ParseBool(restricted.value).Some? then ParseBool(restricted.value).value else false
  }

  /** What the parsed record promises, whatever the XML says. */
  lemma ParsedAnimeFacts(animeId: int32, mainTitle: string, xml: AnimeXml)
    ensures var r := ParsedAnime(animeId, mainTitle, xml);
            && (r.airDate.Some? && r.endDate.Some? ==> !Before(r.endDate.value, r.airDate.value))
            && (r.airDate.Some? ==> 1 <= r.beginYear <= 9999 && r.airDate.value != UnixEpoch)
            && (r.endDate.Some? <==> AniDbDate(xml.endDate).Some?)
            && (xml.restricted.None? ==> !r.isRestricted)
            && '`' !in r.description && |r.description| == |xml.description|
  {
  }

  /**
   * `ParseAnime`: null without an anime id attribute or without a main title
   * that has text; otherwise the filled-in record.
   */
  method ParseAnime(animeId: int32, titles: seq<ResponseTitle>, xml: AnimeXml) returns (anime: Option<ResponseAnime>)
    ensures anime.None? <==> xml.id.None? || IsNullOrWhiteSpace(MainTitle(titles))
    ensures anime.Some? ==> fresh(anime.value)
    ensures anime.Some? ==> anime.value.Fields() == ParsedAnime(animeId, MainTitle(titles).value, xml)
  {
    if xml.id.None? {
      return None;
    }
    var main := MainTitle(titles);
    if IsNullOrWhiteSpace(main) {
      return None;
    }
    var count := ParseInt32(xml.episodeCount).GetOr(0);
    var a := new ResponseAnime(animeId, ReplaceChar(xml.description, '`', '\''), AnimeTypeFromText(xml.animeType), count,
                               RestrictedFlag(xml.restricted), xml.url, xml.picture, main.value);
    a.ParseDates(xml.startDate, xml.endDate);
    return Some(a);
  }

  // ---------------------------------------------------------- tags

  /**
   * The texts `ParseTag` reads from a `<tag>` element. `updated` is what
   * `DateTime.TryParse` makes of its `update` attribute, a culture-dependent
   * parser outside this model.
   */
  datatype TagXml = TagXml(id: string, name: string, description: string, parentId: string, weight: string,
                           verified: string, localSpoiler: string, globalSpoiler: string, updated: Option<Date>)

  datatype ResponseTag = ResponseTag(animeId: int32, tagId: int32, parentTagId: Option<int32>, tagName: string,
                                     tagDescription: string, weight: int32, verified: bool, localSpoiler: bool,
                                     globalSpoiler: bool, lastUpdated: Date)

  /** A tag `ParseTag` can return: a name with text and no backtick, and a parent only when it is positive. */
  predicate ValidTag(t: ResponseTag) {
    t.tagName != "" && '`' !in t.tagName && (t.parentTagId.Some? ==> t.parentTagId.value > 0)
  }

  /**
   * `ParseTag`: null when the id is not an integer or the name is empty;
   * backticks in the name and description become apostrophes; unparsable
   * numbers are 0, unparsable flags false, an unparsable update time the
   * Unix epoch.
   */
  function ParseTag(animeId: int32, node: TagXml): (r: Option<ResponseTag>)
    ensures r.None? <==> ParseInt32(node.id).None? || node.name == ""
    ensures r.Some? ==> ValidTag(r.value) && r.value.animeId == animeId
    ensures r.Some? ==> r.value.tagId == ParseInt32(node.id).value && |r.value.tagName| == |node.name|
    ensures r.Some? ==> r.value.tagName == ReplaceChar(node.name, '`', '\'') &&
                        r.value.tagDescription == ReplaceChar(node.description, '`', '\'')
    ensures r.Some? ==> r.value.weight == ParseInt32(node.weight).GetOr(0)
    ensures r.Some? ==> (r.value.localSpoiler <==> ParseBool(node.localSpoiler) == Some(true)) &&
                        (r.value.globalSpoiler <==> ParseBool(node.globalSpoiler) == Some(true))
    ensures r.Some? ==> (r.value.parentTagId.Some? <==> ParseInt32(node.parentId).GetOr(0) > 0)
    ensures r.Some? ==> (r.value.verified <==> ParseBool(node.verified) == Some(true))
    ensures r.Some? ==> r.value.lastUpdated == node.updated.GetOr(UnixEpoch)
  {
    var tagId := ParseInt32(node.id);
    if tagId.None? then None
    else
      var tagName := ReplaceChar(node.name, '`', '\'');
      if tagName == "" then None
      else
        var parentTagId := ParseInt32(node.parentId).GetOr(0);
        Some(ResponseTag(
          animeId := animeId,
          tagId := tagId.value,
          parentTagId := if parentTagId > 0 then Some(parentTagId) else None,
          tagName := tagName,
          tagDescription := ReplaceChar(node.description, '`', '\''),
          weight := ParseInt32(node.weight).GetOr(0),
          verified := ParseBool(node.verified).GetOr(false),
          localSpoiler := ParseBool(node.localSpoiler).GetOr(false),
          globalSpoiler := ParseBool(node.globalSpoiler).GetOr(false),
          lastUpdated := node.updated.GetOr(UnixEpoch)))
  }

  /** What `ParseTags` collects: every tag `ParseTag` accepts, in order. */
  function ParsedTags(animeId: int32, nodes: seq<TagXml>): (r: seq<ResponseTag>)
    ensures |r| <= |nodes|
    ensures forall i :: 0 <= i < |r| ==> ValidTag(r[i]) && r[i].animeId == animeId
  {
    var parse := node => ParseTag(animeId, node);
    CollectedSatisfy(parse, nodes, (t: ResponseTag) => ValidTag(t) && t.animeId == animeId);
    Collected(parse, nodes)
  }

  /** `ParseTags`: the loop over the `<tag>` elements, skipping the ones `ParseTag` rejects. */
  method ParseTags(animeId: int32, nodes: seq<TagXml>) returns (tags: seq<ResponseTag>)
    ensures tags == ParsedTags(animeId, nodes)
  {
    tags := [];
    for i := 0 to |nodes|
      invariant tags == ParsedTags(animeId, nodes[..i])
    {
      CollectedStep(node => ParseTag(animeId, node), nodes, i);
      var tag := ParseTag(animeId, nodes[i]);
      if tag.Some? {
        tags := tags + [tag.value];
      }
    }
    assert nodes[..|nodes|] == nodes;
  }

  /** Each tag is parsed on its own: the tags of two runs of nodes are the tags of each, concatenated. */
  lemma ParsedTagsAppend(animeId: int32, a: seq<TagXml>, b: seq<TagXml>)
    ensures ParsedTags(animeId, a + b) == ParsedTags(animeId, a) + ParsedTags(animeId, b)
  {
    CollectedAppend(node => ParseTag(animeId, node), a, b);
  }

  // ---------------------------------------------------------- relations

  /** The `id` and `type` attributes of a related `<anime>` element. */
  datatype RelationXml = RelationXml(id: string, relationType: string)

  datatype ResponseRelation = ResponseRelation(animeId: int32, relationType: RelationType, relatedAnimeId: int32)

  /** One related anime: kept when its id is an integer. */
  function RelationOf(animeId: int32, node: RelationXml): (r: Option<ResponseRelation>)
    ensures r.Some? <==> ParseInt32(node.id).Some?
    ensures r.Some? ==> r.value.animeId == animeId && r.value.relatedAnimeId == ParseInt32(node.id).value
  {
    match ParseInt32(node.id)
    case None => None
    case Some(id) => Some(ResponseRelation(animeId, RelationFromText(node.relationType), id))
  }

  /** What `ParseRelations` collects: one relation per node whose id is an integer, in order. */
  function ParsedRelations(animeId: int32, nodes: seq<RelationXml>): (r: seq<ResponseRelation>)
    ensures |r| <= |nodes|
    ensures forall i :: 0 <= i < |r| ==> r[i].animeId == animeId
  {
    var parse := node => RelationOf(animeId, node);
    CollectedSatisfy(parse, nodes, (rel: ResponseRelation) => rel.animeId == animeId);
    Collected(parse, nodes)
  }

  /** `ParseRelations`: the loop over the related-anime elements. */
  method ParseRelations(animeId: int32, nodes: seq<RelationXml>) returns (rels: seq<ResponseRelation>)
    ensures rels == ParsedRelations(animeId, nodes)
  {
    rels := [];
    for i := 0 to |nodes|
      invariant rels == ParsedRelations(animeId, nodes[..i])
    {
      CollectedStep(node => RelationOf(animeId, node), nodes, i);
      var id := ParseInt32(nodes[i].id);
      if id.Some? {
        rels := rels + [ResponseRelation(animeId, RelationFromText(nodes[i].relationType), id.value)];
      }
    }
    assert nodes[..|nodes|] == nodes;
  }

  /** A relation is kept exactly when its id is an integer, and it then names that anime. */
  lemma RelationKept(animeId: int32, nodes: seq<RelationXml>, id: int32, relationType: string)
    requires ParseInt32(FormatInt(id)) == Some(id)
    ensures ParsedRelations(animeId, nodes + [RelationXml(FormatInt(id), relationType)])
            == ParsedRelations(animeId, nodes) + [ResponseRelation(animeId, RelationFromText(relationType), id)]
  {
    var all := nodes + [RelationXml(FormatInt(id), relationType)];
    CollectedStep(node => RelationOf(animeId, node), all, |nodes|);
    assert all[..|nodes|] == nodes && all[..|nodes| + 1] == all;
  }

  // ---------------------------------------------------------- episodes

  /**
   * The texts `ParseEpisode` reads from an `<episode>` element ("" when
   * absent); `updated` as for tags.
   */
  datatype EpisodeXml = EpisodeXml(id: string, epno: string, length: string, votes: string, airDate: string,
                                   summary: string, updated: Option<Date>)

  datatype ResponseEpisode = ResponseEpisode(episodeId: int32, animeId: int32, episodeNumber: int32,
                                             episodeType: EpisodeType, lengthSeconds: int32, votes: int32,
                                             airDate: Date, description: string, lastUpdated: Date)

  /** A length in minutes as seconds, `minutes * 60` in 32-bit arithmetic: exact while it fits. */
  function LengthSeconds(minutes: int32): (r: int32)
    ensures -(Int32Max / 60) <= minutes <= Int32Max / 60 ==> r == minutes * 60
  {
    Wrap32(minutes * 60)
  }

  /**
   * `ParseEpisode`: an episode id that is not an integer raises
   * `UnexpectedHttpResponseException`; so do the failures of the number,
   * type and air-date decoders. So an episode parses exactly when its id,
   * number and air date decode, and then carries the decoded id and type.
   * The length in minutes becomes seconds in 32-bit arithmetic, exact while
   * minutes * 60 fits.
   */
  function ParseEpisode(animeId: int32, node: EpisodeXml): (r: Result<ResponseEpisode, string>)
    ensures r.Ok? <==>
              ParseInt32(node.id).Some? && Trim(node.epno) != [] && GetEpisodeNumber(node.epno, GetEpisodeType(node.epno).value).Ok?
              && GetDate(Some(node.airDate), true).Ok?
    ensures r.Ok? ==> ValidDate(r.value.airDate) && r.value.animeId == animeId
    ensures r.Ok? ==> r.value.episodeId == ParseInt32(node.id).value && r.value.episodeType == GetEpisodeType(node.epno).value
    ensures r.Ok? ==> r.value.episodeNumber == GetEpisodeNumber(node.epno, GetEpisodeType(node.epno).value).value &&
                      r.value.airDate == GetDate(Some(node.airDate), true).value
    ensures r.Ok? ==> r.value.votes == ParseInt32(node.votes).GetOr(0) &&
                      r.value.description == ReplaceChar(node.summary, '`', '\'') &&
                      r.value.lastUpdated == node.updated.GetOr(UnixEpoch)
    ensures r.Ok? && -(Int32Max / 60) <= ParseInt32(node.length).GetOr(0) <= Int32Max / 60 ==>
              r.value.lengthSeconds == ParseInt32(node.length).GetOr(0) * 60
  {
    match ParseInt32(node.id)
    case None => Fail("UnexpectedHttpResponseException")
    case Some(id) =>
      match GetEpisodeType(node.epno)
      case None => Fail("ArgumentOutOfRangeException")
      case Some(episodeType) =>
        match GetEpisodeNumber(node.epno, episodeType)
        case Fail(e) => Fail(e)
        case Ok(episodeNumber) =>
          match GetDate(Some(node.airDate), true)
          case Fail(e) => Fail(e)
          case Ok(airDate) =>
            Ok(ResponseEpisode(
              episodeId := id,
              animeId := animeId,
              episodeNumber := episodeNumber,
              episodeType := episodeType,
              lengthSeconds := LengthSeconds(ParseInt32(node.length).GetOr(0)),
              votes := ParseInt32(node.votes).GetOr(0),
              airDate := airDate,
              description := ReplaceChar(node.summary, '`', '\''),
              lastUpdated := node.updated.GetOr(UnixEpoch)))
  }

  /** What `ParseEpisodes` collects: the episodes that parse; an exception only drops its own episode. */
  function ParsedEpisodes(animeId: int32, nodes: seq<EpisodeXml>): (r: seq<ResponseEpisode>)
    ensures |r| <= |nodes|
    ensures forall i :: 0 <= i < |r| ==> r[i].animeId == animeId && ValidDate(r[i].airDate)
  {
    var parse := node => ParseEpisode(animeId, node).ToOption();
    CollectedSatisfy(parse, nodes, (e: ResponseEpisode) => e.animeId == animeId && ValidDate(e.airDate));
    Collected(parse, nodes)
  }

  /** `ParseEpisodes`: the loop over the `<episode>` elements, logging and skipping the ones that throw. */
  method ParseEpisodes(animeId: int32, nodes: seq<EpisodeXml>) returns (episodes: seq<ResponseEpisode>)
    ensures episodes == ParsedEpisodes(animeId, nodes)
  {
    episodes := [];
    for i := 0 to |nodes|
      invariant episodes == ParsedEpisodes(animeId, nodes[..i])
    {
      CollectedStep(node => ParseEpisode(animeId, node).ToOption(), nodes, i);
      var ep := ParseEpisode(animeId, nodes[i]);
      if ep.Ok? {
        episodes := episodes + [ep.value];
      }
    }
    assert nodes[..|nodes|] == nodes;
  }

  /** An episode that throws drops only itself: the episodes of two runs of nodes are those of each, concatenated. */
  lemma ParsedEpisodesAppend(animeId: int32, a: seq<EpisodeXml>, b: seq<EpisodeXml>)
    ensures ParsedEpisodes(animeId, a + b) == ParsedEpisodes(animeId, a) + ParsedEpisodes(animeId, b)
  {
    CollectedAppend(node => ParseEpisode(animeId, node).ToOption(), a, b);
  }

  // ---------------------------------------------------------- unescaping

  /**
   * `UnescapeXml` as written: null stays null; the loop runs up to five
   * times, but every pass decodes the original text, so the second pass
   * always matches the first and the answer is a single decode. `decode` is
   * `HttpUtility.HtmlDecode`.
   */
  method UnescapeXml(xml: Option<string>, decode: string -> string) returns (r: Option<string>)
    ensures xml.None? ==> r.None?
    ensures xml.Some? ==> r == Some(decode(xml.value))
  {
    if xml.None? {
      return None;
    }
    var result: Option<string> := None;
    for i := 0 to 5
      invariant i == 0 ==> result.None?
      invariant i > 0 ==> result == Some(decode(xml.value))
    {
      var temp := decode(xml.value);
      if result == Some(temp) {
        return result;
      }
      result := Some(temp);
    }
    return result;
  }

  /** `decode` applied `n` times. */
  function DecodeTimes(s: string, decode: string -> string, n: nat): string {
    if n == 0 then s else decode(DecodeTimes(s, decode, n - 1))
  }

  /**
   * The unescaping the comment describes: decode again while that still
   * changes the text, at most five times.
   */
  method UnescapeXmlDeep(xml: Option<string>, decode: string -> string) returns (r: Option<string>)
    ensures xml.None? ==> r.None?
    ensures xml.Some? ==> r.Some? && exists n :: 1 <= n <= 5 && r.value == DecodeTimes(xml.value, decode, n)
                                       && (n < 5 ==> decode(r.value) == r.value)
  {
    if xml.None? {
      return None;
    }
    var current := xml.value;
    var result: Option<string> := None;
    for i := 0 to 5
      invariant i == 0 ==> result.None? && current == xml.value
      invariant i > 0 ==> result == Some(current) && current == DecodeTimes(xml.value, decode, i)
    {
      var temp := decode(current);
      if result == Some(temp) {
        assert temp == current;
        return result;
      }
      result := Some(temp);
      current := temp;
    }
    return result;
  }

  /**
   * A text escaped twice ("&amp;lt;" for "<") keeps one level of escaping
   * through `UnescapeXml` ("&lt;"); the deep unescaping reaches "<".
   */
  lemma DoubleEscapedText(decode: string -> string)
    requires decode("&amp;lt;") == "&lt;" && decode("&lt;") == "<" && decode("<") == "<"
    ensures decode("&amp;lt;") != "<"
    ensures DecodeTimes("&amp;lt;", decode, 2) == "<" && decode(DecodeTimes("&amp;lt;", decode, 2)) == "<"
    ensures forall n :: 1 <= n <= 5 && decode(DecodeTimes("&amp;lt;", decode, n)) == DecodeTimes("&amp;lt;", decode, n)
                       ==> DecodeTimes("&amp;lt;", decode, n) == "<"
  {
    forall n | 1 <= n <= 5 && decode(DecodeTimes("&amp;lt;", decode, n)) == DecodeTimes("&amp;lt;", decode, n)
      ensures DecodeTimes("&amp;lt;", decode, n) == "<"
    {
      assert DecodeTimes("&amp;lt;", decode, 1) == "&lt;";
      if n > 1 {
        DecodeStaysAtFixpoint("&amp;lt;", decode, 2, n);
      }
    }
  }

  lemma {:induction false} DecodeStaysAtFixpoint(s: string, decode: string -> string, k: nat, n: nat)
    requires k <= n && decode(DecodeTimes(s, decode, k)) == DecodeTimes(s, decode, k)
    ensures DecodeTimes(s, decode, n) == DecodeTimes(s, decode, k)
    decreases n
  {
    if n > k {
      DecodeStaysAtFixpoint(s, decode, k, n - 1);
    }
  }
}
