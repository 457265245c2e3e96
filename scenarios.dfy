/**
 * Worked inputs for the parser and the run: the year rule, the month lookup,
 * both date forms, the link, and three whole runs (a first import, a second
 * run that meets the same title, a file name without `id_key` form).
 */
module Scenarios {
  import opened Wrappers
  import opened Text
  import opened Calendar
  import opened Dates
  import opened DocumentParser
  import opened Intake

  /** Observed in 2024, `23` is 2023 and `99` is 1999; three and four digits are read as written. */
  lemma ResolveYearExamples()
    ensures ResolveYear("23", 24) == 2023
    ensures ResolveYear("99", 24) == 1999
    ensures ResolveYear("024", 24) == 24
    ensures ResolveYear("2024", 24) == 2024
  {
    assert DigitsValue("2") == 2 && DigitsValue("9") == 9;
    assert "23"[..1] == "2" && "99"[..1] == "9";
    assert DigitsValue("23") == 23 && DigitsValue("99") == 99;
    assert "024"[..2] == "02" && "02"[..1] == "0";
    assert DigitsValue("024") == 24;
    assert "2024"[..3] == "202" && "202"[..2] == "20" && "20"[..1] == "2";
    assert DigitsValue("2024") == 2024;
  }

  /** Month numbers are zero-based positions: January is 0. */
  lemma JaneiroIsMonthZero()
    ensures MonthNumber("janeiro") == Some(0)
  {
    LowercaseUnchanged("janeiro");
    assert MonthNames[0] == "janeiro";
  }

  /** Capitals are lowered before the lookup, `Ç` included; March is 2. */
  lemma UpperMarchIsMonthTwo()
    ensures MonthNumber("MARÇO") == Some(2)
  {
    assert ToLower("MARÇO") == "março";
    assert MonthNames[2] == "março";
    assert MonthNames[0] != "março" && MonthNames[1] != "março";
  }

  lemma MarchIsMonthTwo()
    ensures MonthNumber("março") == Some(2)
  {
    LowercaseUnchanged("março");
    assert MonthNames[2] == "março";
    assert MonthNames[0] != "março" && MonthNames[1] != "março";
  }

  /** December is 11. */
  lemma DezembroIsMonthEleven()
    ensures MonthNumber("dezembro") == Some(11)
  {
    LowercaseUnchanged("dezembro");
    assert MonthNames[11] == "dezembro";
    assert forall k :: 0 <= k < 11 ==> MonthNames[k] != "dezembro";
  }

  /** The values `str::parse` gives the captures used below. */
  lemma DigitsValueExamples()
    ensures DigitsValue("15") == 15 && DigitsValue("03") == 3 && DigitsValue("24") == 24
    ensures DigitsValue("31") == 31 && DigitsValue("02") == 2 && DigitsValue("2024") == 2024
  {
    assert "2024"[..3] == "202" && "202"[..2] == "20" && "20"[..1] == "2";
  }

  lemma MatchOfShortNumericDate()
    ensures FirstNumericFrom("15/03/24", 0) == Some(Match(0, Captures("15", "03", "24")))
  {
    var s := "15/03/24";
    assert NumericAt(s, 0) == Some(Captures("15", "03", "24")) by {
      NumericAtWritten(s, 0, 2);
      assert s[0..2] == "15" && s[3..5] == "03" && s[6..8] == "24";
    }
  }

  /** `15/03/24`, observed in 2024, is the midnight of 15 March 2024. */
  lemma NumericDateExample()
    ensures ExtractDate("15/03/24", 24) == Some(1710460800)
  {
    MatchOfShortNumericDate();
    DigitsValueExamples();
    assert DaysFromCivil(2024, 3, 15) == 19797;
  }

  /**
   * The leftmost match of a line that starts with a full `dd/mm/yyyy` spans
   * those ten characters, whatever follows: a year takes at most four digits.
   */
  lemma MatchOfFullDate(date: string, rest: string)
    requires |date| == 10 && date[2] == '/' && date[5] == '/'
    requires forall p :: 0 <= p < 10 && p != 2 && p != 5 ==> IsDigit(date[p])
    ensures FirstNumericFrom(date + rest, 0) == Some(Match(0, Captures(date[0..2], date[3..5], date[6..10])))
  {
    var s := date + rest;
    assert s[..10] == date;
    NumericAtWritten(s, 0, 4);
    assert s[0..2] == date[0..2] && s[3..5] == date[3..5] && s[6..10] == date[6..10];
  }

  /** `31/02/2024` has the shape of a full date. */
  lemma InvalidFebruaryShape()
    ensures |"31/02/2024"| == 10 && "31/02/2024"[2] == '/' && "31/02/2024"[5] == '/'
    ensures forall p :: 0 <= p < 10 && p != 2 && p != 5 ==> IsDigit("31/02/2024"[p])
    ensures "31/02/2024"[0..2] == "31" && "31/02/2024"[3..5] == "02" && "31/02/2024"[6..10] == "2024"
  {
  }

  /** `31/02/2024` yields no date: February has no 31st. */
  lemma InvalidFebruaryExample()
    ensures ExtractDate("31/02/2024", 24).None?
  {
    InvalidFebruaryShape();
    MatchOfFullDate("31/02/2024", []);
    assert "31/02/2024" + [] == "31/02/2024";
    DigitsValueExamples();
  }

  /**
   * Nothing after an invalid leading date is looked at, not even a valid date
   * such as the ` 01/03/2024` of `31/02/2024 01/03/2024`.
   */
  lemma InvalidDateEndsLineSearch(rest: string)
    ensures ExtractDate("31/02/2024" + rest, 24).None?
  {
    InvalidFebruaryShape();
    MatchOfFullDate("31/02/2024", rest);
    DigitsValueExamples();
    OnlyLeftmostNumericMatch("31/02/2024" + rest, 24);
  }

  const PortugueseText: string := "15 de março de 24"

  /**
   * A text laid out as `dd de mmmmm de yy`: two digits, one white-space
   * character, `de`, one white-space character, five month-name characters,
   * one white-space character, `de`, one white-space character, two digits.
   */
  predicate SampleLayout(s: string) {
    |s| == 17 && (forall p :: 0 <= p < 2 ==> IsDigit(s[p]))
    && IsSpace(s[2]) && IsDe(s, 3) && IsSpace(s[5])
    && (forall p :: 6 <= p < 11 ==> IsWordChar(s[p]))
    && IsSpace(s[11]) && IsDe(s, 12) && IsSpace(s[14])
    && IsDigit(s[15]) && IsDigit(s[16])
  }

  /** `15 de março de 24` has that layout. */
  lemma PortugueseTextLayout()
    ensures SampleLayout(PortugueseText)
  {
  }

  /** Where the day, the month name and the year sit in `15 de março de 24`. */
  lemma PortugueseTextParts()
    ensures PortugueseText[0..2] == "15" && PortugueseText[6..11] == "março" && PortugueseText[15..17] == "24"
  {
    assert PortugueseText[0..2] == "15";
    assert PortugueseText[6..11] == "março";
  }

  /** The first ` de ` runs from 2 to 6, and five month-name characters follow it. */
  lemma LayoutHead(s: string)
    requires SampleLayout(s)
    ensures ConnectiveAt(s, 2) && AfterConnective(s, 2) == 6 && WordRun(s, 6) == 5
  {
    SpaceEndExact(s, 2, 3);
    SpaceEndExact(s, 5, 6);
    WordRunExact(s, 6, 5);
  }

  /** After the month name ending at 11, the rest ` de yy` matches. */
  lemma LayoutTail(s: string)
    requires SampleLayout(s)
    ensures ConnectiveAt(s, 2) && AfterConnective(s, 2) == 6
    ensures PortugueseAfterMonth(s, 0, 2, 6, 11) == Some(Captures(s[0..2], s[6..11], s[15..17]))
  {
    LayoutHead(s);
    SpaceEndExact(s, 11, 12);
    SpaceEndExact(s, 14, 15);
    DigitRunExact(s, 15, 2);
  }

  /** The longest month candidate, all five characters, already succeeds. */
  lemma LayoutMonth(s: string)
    requires SampleLayout(s)
    ensures ConnectiveAt(s, 2) && AfterConnective(s, 2) == 6
    ensures PortugueseMonthFrom(s, 0, 2, 6, 5) == Some(Captures(s[0..2], s[6..11], s[15..17]))
  {
    LayoutTail(s);
  }

  /** With the two-digit day, the connective and the five-character month name. */
  lemma LayoutDay(s: string)
    requires SampleLayout(s)
    ensures PortugueseAfterDay(s, 0, 2) == Some(Captures(s[0..2], s[6..11], s[15..17]))
  {
    LayoutHead(s);
    LayoutMonth(s);
  }

  /** The leftmost Portuguese match of such a text starts at 0, with the two-digit day. */
  lemma LayoutMatch(s: string)
    requires SampleLayout(s)
    ensures FirstPortugueseFrom(s, 0) == Some(Match(0, Captures(s[0..2], s[6..11], s[15..17])))
  {
    DigitRunExact(s, 0, 2);
    LayoutDay(s);
  }

  lemma MatchOfPortugueseDate()
    ensures FirstPortugueseFrom(PortugueseText, 0) == Some(Match(0, Captures("15", "março", "24")))
  {
    PortugueseTextLayout();
    LayoutMatch(PortugueseText);
    PortugueseTextParts();
  }

  /** `15 de março de 24` is read with month 2, so it is the midnight of 15 February 2024. */
  lemma PortugueseDateExample()
    ensures ExtractPortugueseDate(PortugueseText, 24) == Some(1707955200)
  {
    MatchOfPortugueseDate();
    MarchIsMonthTwo();
    FebruaryFifteenth();
  }

  lemma FebruaryFifteenth()
    ensures DateFromParts(ResolveYear("24", 24), 2, DigitsValue("15")) == Some(1707955200)
  {
    DigitsValueExamples();
    assert DaysFromCivil(2024, 2, 15) == 19768;
  }

  /** Empty parts are accepted: `_k.pdf` has an empty id. */
  lemma EmptyIdLinkExample()
    ensures GetLink("_k.pdf") == Ok(LinkPrefix + "&key=k")
  {
    GetLinkOfIdKey("", "k");
    assert "" + "_" + "k" + ".pdf" == "_k.pdf";
    assert LinkPrefix + "" + "&key=" + "k" == LinkPrefix + "&key=k";
  }

  /** A stem with two underscores is three parts: an error. */
  lemma ThreePartLinkExample()
    ensures GetLink("a_b_c.pdf").Err?
  {
    assert "a_b_c" + "." + "pdf" == "a_b_c.pdf";
    assert Count("c", '_') == 0;
    assert Count("_c", '_') == 1;
    assert Count("b_c", '_') == 1;
    assert Count("_b_c", '_') == 2;
    assert Count("a_b_c", '_') == 2;
    GetLinkRejectsPartCount("a_b_c", "pdf");
  }

  // ---------------------------------------------------------------------------
  // Whole runs over one document whose text is a title line and a date line

  const TitleLine: string := "RESOLUÇÃO 1"
  const DateLine: string := "12/01/2023"
  const DocumentText: string := TitleLine + "\n" + DateLine

  lemma DocumentLineChars()
    ensures '\n' !in TitleLine && '\n' !in DateLine && DateLine != []
    ensures StripCR(TitleLine) == TitleLine
  {
    assert TitleLine[|TitleLine| - 1] != '\r';
  }

  lemma DocumentLines()
    ensures Lines(DocumentText) == [TitleLine, DateLine]
  {
    DocumentLineChars();
    LinesCons(TitleLine, DateLine);
    LinesOfOneLine(DateLine);
  }

  lemma DocumentTitle()
    ensures FirstTitleLine(Lines(DocumentText), Keywords) == Some(TitleLine)
  {
    DocumentLines();
    assert "RESOLUÇÃO" <= TitleLine[0..];
    assert Contains(TitleLine, Keywords[0]);
    assert ContainsAny(TitleLine, Keywords);
  }

  /** The date line has the shape of a full date. */
  lemma DateLineShape()
    ensures |DateLine| == 10 && DateLine[2] == '/' && DateLine[5] == '/'
    ensures forall p :: 0 <= p < 10 && p != 2 && p != 5 ==> IsDigit(DateLine[p])
    ensures DateLine[0..2] == "12" && DateLine[3..5] == "01" && DateLine[6..10] == "2023"
  {
  }

  lemma DateLineDate()
    ensures ExtractDate(DateLine, 24) == Some(1673481600)
  {
    DateLineShape();
    MatchOfFullDate(DateLine, []);
    assert DateLine + [] == DateLine;
    DateLineValues();
    TwelfthOfJanuary();
  }

  /** 12 January 2023 is day 19369 after the epoch. */
  lemma TwelfthOfJanuary()
    ensures IsValidDate(2023, 1, 12) && DaysFromCivil(2023, 1, 12) == 19369
  {
  }

  lemma DateLineValues()
    ensures DigitsValue("2023") == 2023 && DigitsValue("01") == 1 && DigitsValue("12") == 12
  {
    assert "2023"[..3] == "202";
    assert "202"[..2] == "20";
    assert "20"[..1] == "2";
  }

  lemma DocumentHasNoPortugueseDate()
    ensures ExtractPortugueseDate(DocumentText, 24).None?
  {
    assert 'd' !in DocumentText;
    NoConnectiveNoPortugueseDate(DocumentText, 24);
  }

  lemma TitleLineHasNoDate()
    ensures ExtractDate(TitleLine, 24).None?
  {
    assert '/' !in TitleLine;
    NoSlashNoNumericDate(TitleLine, 24);
  }

  /** The title line has no date, so the date is that of the next line: 12 January 2023. */
  lemma DocumentDate()
    ensures DateOf(DocumentText, 24) == Some(1673481600)
  {
    DocumentHasNoPortugueseDate();
    TitleLineHasNoDate();
    DateLineDate();
    DocumentLines();
    var ls := [TitleLine, DateLine];
    assert ls[1..] == [DateLine];
    assert FirstLineDate(ls, 24) == FirstLineDate([DateLine], 24);
  }

  const FirstName: string := "123" + "_" + "abcKEY" + ".pdf"
  const SecondName: string := "456" + "_" + "defKEY" + ".pdf"
  const MalformedName: string := "nodelimiter" + "." + "pdf"
  const FirstLink: string := LinkPrefix + "123" + "&key=" + "abcKEY"

  /** `123_abcKEY.pdf` is a PDF whose link has id `123` and key `abcKEY`. */
  lemma FirstNameFacts()
    ensures Extension(FirstName) == Some("pdf")
    ensures GetLink(FirstName) == Ok(FirstLink)
  {
    GetLinkOfIdKey("123", "abcKEY");
  }

  lemma SecondNameFacts()
    ensures Extension(SecondName) == Some("pdf")
  {
    GetLinkOfIdKey("456", "defKEY");
  }

  /** `nodelimiter.pdf` is a PDF, but its stem is a single part: no link. */
  lemma MalformedNameFacts()
    ensures Extension(MalformedName) == Some("pdf")
    ensures GetLink(MalformedName).Err?
  {
    StemAndExtension("nodelimiter", "pdf");
    assert forall j :: 0 <= j < |"nodelimiter"| ==> "nodelimiter"[j] != '_';
    CountBeforeIndex("nodelimiter", '_', |"nodelimiter"|);
    GetLinkRejectsPartCount("nodelimiter", "pdf");
  }

  /**
   * A first run on an empty catalog over `123_abcKEY.pdf`: one entry, with the
   * title line, the hash of that line, the date of the date line and the link
   * of id `123` and key `abcKEY`.
   */
  lemma FirstImport(hash: string -> string)
    ensures Intake.Intake([], [InputFile(FirstName, true, Some(DocumentText))], 24, hash)
            == Ok(IntakeState([Entry(hash(TitleLine), Some(TitleLine), Some(1673481600), DocumentText,
                                     FirstLink)],
                              {TitleLine}))
  {
    var f := InputFile(FirstName, true, Some(DocumentText));
    var st := IntakeState([], TitlesOf([]));
    FirstNameFacts();
    DocumentTitle();
    DocumentDate();
    assert TitlesOf([]) == {};
    SingleFileRun(st, f, 24, hash);
    NewTitleAppended(st, f, 24, hash);
    var t := FirstTitleLine(Lines(f.text.value), Keywords).value;
    assert t == TitleLine;
    assert st.known + {t} == {TitleLine};
    assert DateOf(f.text.value, 24) == Some(1673481600);
    assert GetLink(f.name).value == FirstLink;
    var e := Entry(hash(t), Some(t), DateOf(f.text.value, 24), f.text.value, GetLink(f.name).value);
    assert e == Entry(hash(TitleLine), Some(TitleLine), Some(1673481600), DocumentText, FirstLink);
    assert st.entries + [e] == [e];
    assert Intake.Intake([], [f], 24, hash) == ProcessFile(st, f, 24, hash);
  }

  /** A second run over another file with a byte-identical title adds nothing. */
  lemma SecondRunSkipsDuplicate(hash: string -> string)
    ensures var first := [Entry(hash(TitleLine), Some(TitleLine), Some(1673481600), DocumentText,
                                LinkPrefix + "123&key=abcKEY")];
            Intake.Intake(first, [InputFile(SecondName, true, Some(DocumentText))], 24, hash)
            == Ok(IntakeState(first, {TitleLine}))
  {
    var first := [Entry(hash(TitleLine), Some(TitleLine), Some(1673481600), DocumentText,
                        LinkPrefix + "123&key=abcKEY")];
    var f := InputFile(SecondName, true, Some(DocumentText));
    var st := IntakeState(first, TitlesOf(first));
    SecondNameFacts();
    DocumentTitle();
    assert first[..0] == [];
    assert TitlesOf(first) == {TitleLine};
    SingleFileRun(st, f, 24, hash);
    DuplicateNotAppended(st, f, 24, hash);
  }

  /** A file named without `id_key` form is rejected, yet its title becomes known. */
  lemma MalformedNameRejected(hash: string -> string)
    ensures Intake.Intake([], [InputFile(MalformedName, true, Some(DocumentText))], 24, hash)
            == Ok(IntakeState([], {TitleLine}))
  {
    var f := InputFile(MalformedName, true, Some(DocumentText));
    var st := IntakeState([], TitlesOf([]));
    MalformedNameFacts();
    DocumentTitle();
    assert TitlesOf([]) == {};
    SingleFileRun(st, f, 24, hash);
    LinkFailureRemembersTitle(st, f, 24, hash);
    var t := FirstTitleLine(Lines(f.text.value), Keywords).value;
    assert t == TitleLine;
    assert st.known + {t} == {TitleLine};
    assert Intake.Intake([], [f], 24, hash) == ProcessFile(st, f, 24, hash);
  }
}
