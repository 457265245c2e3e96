# Document parser intake, modelled in Dafny

The document parser turns the text of PDF files into catalog records. Each
record holds a title, a publication date, the full text, an identifier and a
download link. The text is what a PDF-to-text tool prints for the file.

A run has four steps:

1. It loads the catalog kept from earlier runs and rebuilds the set of known
   titles from it.
2. It walks the intake folder. For every PDF it:
   - finds the title: the first line that contains one of four keywords;
   - finds the date: a Portuguese `15 de março de 24` anywhere in the text
     first, otherwise the first line with a valid `d/m/y`;
   - drops title and date when the title is already known;
   - builds the link from the file name, which has the form `<id>_<key>.pdf`.
3. It appends a new record for every new title that has a link.
4. It writes the catalog back.

The model follows `Document_Parser/src/main.rs`. It has six modules in six files,
plus a file of worked examples:

- `text.dfy` (`Text`): the string operations the program relies on:
  - `str::lines`;
  - `str::contains`;
  - `split('_')`;
  - lowercasing.
- `calendar.dfy` (`Calendar`): checks which dates are valid and counts days
  from 1970-01-01. Both are what chrono's `NaiveDate::from_ymd_opt` and
  `timestamp` compute.
- `dates.dfy` (`Dates`): the two date regular expressions, written as the
  backtracking engine runs them. The engine takes:
  - the leftmost position where the pattern matches;
  - at that position, the first match in the order the greedy quantifiers
    try their alternatives.

  Also here: the two-digit-year rule, the month lookup, and
  `extract_date` / `extract_portuguese_date`.
- `document_parser.dfy` (`DocumentParser`):
  - `return_title` and `return_date`, as methods with loops, proved against
    reference functions;
  - `return_parameters`, which applies the duplicate policy;
  - `get_link`, together with `Path::file_stem` and `Path::extension`.
- `intake.dfy` (`Intake`): the loop in `main`.
  - `Intake` is a reference function that folds over the files.
  - `LoadEntries` is the imperative load loop. It is proved to return the
    stored entries unchanged, with exactly their titles as the known titles.
  - `Run` is the imperative intake loop, proved equal to that function.
  - Lemmas state what one pass does to the catalog and to the known titles.
- `scenarios.dfy` (`Scenarios`): concrete inputs:
  - the year rule, the month lookup, both date forms and the link;
  - three whole runs: a first import, a rerun with the same title, and a file
    name without `id_key` form.
- `wrappers.dfy` (`Wrappers`): `Option` and `Result`.

Nothing stands in for performing I/O. These things become parameters:

- the hash: `hash: string -> string` stands for the hex SHA-256 digest;
- the current two-digit year: `curYY`;
- the folder listing: a sequence of `InputFile` values, each with its name,
  whether it is a regular file, and what `pdftotext` printed (absent if
  extraction failed);
- the stored catalog: a sequence of `Entry`.

### Behaviour worth knowing

- **No text normalizer.** The code scans `pdftotext` output as it is.
- **A failed extraction aborts the run.** `extract_text(&path)?` returns from
  `main` before the catalog is written; it does not skip the file. `Run` and
  `Intake` return `Err(ExtractionFailed(name))`, and `IntakeFromFails` says
  exactly when that happens.
- **`get_link` splits the stem on every `_`, not only the first.** Names with
  two underscores are rejected (`ThreePartLinkExample`). Empty parts are
  accepted (`EmptyIdLinkExample`).
- **A new title becomes known before the link is checked.** A later file with
  the same title counts as a duplicate even when no entry was written
  (`LinkFailureRemembersTitle`, `MalformedNameRejected`).
- **Month numbers are zero-based positions.** This is `position` with no `+ 1`:
  - `15 de março de 24` is 15 February 2024, not 15 March (`PortugueseDateExample`);
  - a leftmost match naming `janeiro` never gives a date (`JaneiroNeverYieldsDate`);
  - `dezembro` is 11.
- **Invalid dates are skipped only between lines.** On one line only the
  leftmost `d/m/y` is tried. If it is invalid, the line gives nothing, even
  when a valid date follows (`InvalidDateEndsLineSearch`). The same holds for
  the single leftmost Portuguese match in the whole text (`ExtractPortugueseDate`).
- **Years are resolved only when they have exactly two digits.** A
  three-digit year is read literally: `024` is year 24.

## Model

| member | source | states |
|---|---|---|
| Text.Lines | Document_Parser/src/main.rs:51 | The lines of a text: none exactly for the empty text, no line contains a line feed, and there is at most one more line than there are line feeds |
| Text.LinesCons | Document_Parser/src/main.rs:51 | A first line ended by a line feed comes out with a trailing carriage return removed, followed by the lines of the rest |
| Text.LinesOfOneLine | Document_Parser/src/main.rs:65 | A non-empty text without a line feed is a single line, unchanged |
| Text.Split | Document_Parser/src/main.rs:190 | Splitting on a character gives at least one part, and no part contains the separator |
| Text.SplitJoin | Document_Parser/src/main.rs:190 | Joining the parts with the separator gives back the original text |
| Text.SplitCount | Document_Parser/src/main.rs:190-191 | There is exactly one more part than there are separators |
| Text.ToLower | Document_Parser/src/main.rs:120 | Lowercasing keeps the length, leaves no ASCII or Latin-1 capital, keeps every other character, and lowers each character on its own |
| Text.LowercaseUnchanged | Document_Parser/src/main.rs:126 | Text without an ASCII or Latin-1 capital is unchanged by lowercasing, so the month names compare as written |
| Text.LowercaseIdempotent | Document_Parser/src/main.rs:120-126 | Lowercasing twice gives the same as lowercasing once |
| Calendar.DaysInMonth | Document_Parser/src/main.rs:146 | A month has 28 to 31 days, and 29 exactly for February of a leap year |
| Calendar.NextDay | Document_Parser/src/main.rs:146 | The day after a valid date is a valid date |
| Calendar.DaysFromCivilEpoch | Document_Parser/src/main.rs:147 | The day count is 0 at 1970-01-01 |
| Calendar.DaysBeforeMarchStep | Document_Parser/src/main.rs:146-147 | A March-to-February year has 366 days exactly when its February is a leap February, and 365 days otherwise |
| Calendar.MonthOffsetStep | Document_Parser/src/main.rs:146-147 | Outside February, consecutive month offsets differ by the length of the month |
| Calendar.DaysFromCivilNextDay | Document_Parser/src/main.rs:147 | Consecutive calendar days get consecutive day numbers, across month and year ends |
| Dates.DigitRun | Document_Parser/src/main.rs:155 | The run of digits at a position: all of it digits, and the next character is not a digit |
| Dates.WordRun | Document_Parser/src/main.rs:115 | The run of characters that are neither digits nor white space, maximal in the same way |
| Dates.SpaceEnd | Document_Parser/src/main.rs:115 | Where a run of white space ends: everything before is white space, and the character there is not |
| Dates.DigitsValue | Document_Parser/src/main.rs:119 | The decimal value of 1, 2, 3 or 4 digits is below 10, 100, 1000 or 10000 |
| Dates.YearAt | Document_Parser/src/main.rs:155 | The year group captures 2 to 4 digits, exactly as they appear in the text; it is absent exactly when two digits do not follow, and a shorter year than four digits is never followed by a digit |
| Dates.YearAtLongest | Document_Parser/src/main.rs:155 | Any 2 to 4 digits written at a position are no longer than the year captured there |
| Dates.NumericAfterMonth | Document_Parser/src/main.rs:155 | After the day and the month, any capture is a numeric match at the start with that day and month; whenever such a match exists one is found, and its year is the longest |
| Dates.NumericAfterDay | Document_Parser/src/main.rs:155 | After the day, any capture is a numeric match with that day; whenever such a match exists one is found, and it is the one the engine tries first: the longer month, then the longer year |
| Dates.NumericAt | Document_Parser/src/main.rs:155 | Any capture is a numeric match at the position; whenever a match exists there one is found, and it is the first in the engine's order: the longer day, then the longer month, then the longer year |
| Dates.FirstNumericFrom | Document_Parser/src/main.rs:156-158 | The leftmost match: it matches at the returned start, no earlier start matches, and none is returned only if no start matches |
| Dates.LeftmostNumericMatch | Document_Parser/src/main.rs:155-158 | On the text alone: the leftmost numeric result is a match that the engine tries first at its start, no earlier start has a match, and there is no result only when no start has one |
| Dates.PortugueseAfterMonth | Document_Parser/src/main.rs:115 | After the day and the month name, any capture is a Portuguese match with that day and month; whenever such a match exists one is found, and its year is the longest |
| Dates.PortugueseMonthFrom | Document_Parser/src/main.rs:115 | Among month names of at most the given length: any capture is a Portuguese match with that day, and whenever such a match exists one is found, first in the engine's order (the longer month name, then the longer year) |
| Dates.PortugueseAfterDay | Document_Parser/src/main.rs:115 | After the day, any capture is a Portuguese match with that day; whenever such a match exists one is found, first in the engine's order |
| Dates.PortugueseAt | Document_Parser/src/main.rs:115 | Any capture is a Portuguese match at the position; whenever a match exists there one is found, first in the engine's order (the longer day, then the longer month name, then the longer year); a match needs a `d` in the text |
| Dates.FirstPortugueseFrom | Document_Parser/src/main.rs:115-118 | The leftmost Portuguese match: it matches at the returned start, no earlier start matches, and none only if no start matches |
| Dates.LeftmostPortugueseMatch | Document_Parser/src/main.rs:115-118 | On the text alone: the leftmost Portuguese result is a match that the engine tries first at its start, no earlier start has a match, and there is no result only when no start has one |
| Dates.ResolveYear | Document_Parser/src/main.rs:131-144 | A two-digit year keeps its value modulo 100, falls in the window from 1900 + curYY (exclusive) to 2000 + curYY, and is in this century exactly when it is at most curYY; any other length is read as written |
| Dates.DateFromParts | Document_Parser/src/main.rs:146-147 | A timestamp exists exactly for a valid date, falls on a midnight, and counts whole days since the epoch |
| Dates.PositionIn | Document_Parser/src/main.rs:124-126 | The position of the first equal name, or none exactly when the name is not listed |
| Dates.ExtractPortugueseDate | Document_Parser/src/main.rs:99-152 | No date without a Portuguese match or when the leftmost match names no listed month; otherwise a date exactly when the day, the zero-based month position and the resolved year form a valid date, and then it is that date's midnight |
| Dates.MonthNumber | Document_Parser/src/main.rs:124-127 | The zero-based position of the lowercased capture in the month list, or none exactly when it is not listed |
| Dates.ExtractDate | Document_Parser/src/main.rs:154-184 | No date without a numeric match; otherwise a date exactly when the leftmost match's day, month and resolved year form a valid date, and then it is that date's midnight |
| Dates.NoSlashNoNumericDate | Document_Parser/src/main.rs:154-158 | A line without a slash has no numeric date |
| Dates.NoConnectiveNoPortugueseDate | Document_Parser/src/main.rs:115-118 | A text without the letter `d` has no Portuguese date |
| Dates.JaneiroNeverYieldsDate | Document_Parser/src/main.rs:124-146 | A leftmost Portuguese match naming January, in any case, gives no date |
| Dates.NumericAtWritten | Document_Parser/src/main.rs:155 | A fully written `dd/mm/` followed by a year of 2 to 4 digits that no further digit extends is captured as written |
| Dates.OnlyLeftmostNumericMatch | Document_Parser/src/main.rs:156-180 | If the leftmost numeric match is not a valid date, the line gives no date |
| DocumentParser.FirstTitleLineSpec | Document_Parser/src/main.rs:49-58 | The reference title is the first line that contains a keyword, and it is absent exactly when no line contains one |
| DocumentParser.ReturnTitle | Document_Parser/src/main.rs:49-58 | The loop returns the first line that contains a keyword, or none exactly when no line contains one |
| DocumentParser.ReturnDate | Document_Parser/src/main.rs:60-72 | A Portuguese date in the text wins. Otherwise it is the date of the first line with a valid numeric date, and none exactly when no line has one |
| DocumentParser.ReturnParameters | Document_Parser/src/main.rs:75-97 | The text comes back unchanged. The duplicate flag is set exactly when the detected title is known, and then title and date are dropped. Otherwise title and date are the detected ones, and a returned title is never a known one |
| DocumentParser.SplitExtension | Document_Parser/src/main.rs:188 | Stem and extension put back together give the name, the stem is non-empty and the extension has no dot; without an extension the stem is the whole name |
| DocumentParser.GetLink | Document_Parser/src/main.rs:186-203 | A link exists exactly when the stem has one underscore. It is the download URL with the two parts as id and key, and any other name is an error naming the file |
| DocumentParser.StemAndExtension | Document_Parser/src/main.rs:188 | A name of the form stem, dot, dot-free extension has that stem and that extension |
| DocumentParser.GetLinkRejectsPartCount | Document_Parser/src/main.rs:190-199 | A stem with no underscore or with several is rejected |
| DocumentParser.GetLinkOfIdKey | Document_Parser/src/main.rs:190-196 | `<id>_<key>.pdf` is a PDF whose link carries that id and key, for ids and keys without an underscore |
| Intake.TitlesOfMembers | Document_Parser/src/main.rs:234-237 | The known titles after loading are exactly the titles of the loaded entries |
| Intake.TitlesOfAppend | Document_Parser/src/main.rs:234-238 | Appending an entry adds its title, if any, to the known titles |
| Intake.DuplicateNotAppended | Document_Parser/src/main.rs:87-93 | A PDF whose title is already known leaves the catalog and the known titles unchanged |
| Intake.TitlelessNotAppended | Document_Parser/src/main.rs:253-290 | A PDF without a title line leaves the catalog and the known titles unchanged |
| Intake.SingleFileRun | Document_Parser/src/main.rs:242-308 | A run over one file is that file's step |
| Intake.LinkFailureRemembersTitle | Document_Parser/src/main.rs:255-269 | A new title whose file name gives no link is added to the known titles, and nothing is appended |
| Intake.NewTitleAppended | Document_Parser/src/main.rs:253-280 | A new title with a link appends one entry with its hash, title, date, text and link, and becomes known |
| Intake.ProcessFileStep | Document_Parser/src/main.rs:245-301 | One file keeps every catalog title known and never forgets a known title. It either changes nothing in the catalog or appends one entry that has a title, is identified by that title's hash, and was not known before |
| Intake.UniqueAfterAppend | Document_Parser/src/main.rs:255-280 | Appending an entry whose title is not known keeps titles unique |
| Intake.IntakeFromGrows | Document_Parser/src/main.rs:242-308 | Over a run the catalog keeps its old entries as a prefix and only grows. Every appended entry has a title and that title's hash, and unique titles stay unique |
| Intake.IntakeFromFails | Document_Parser/src/main.rs:245-246 | A run fails exactly when the text of some regular PDF file could not be extracted |
| Intake.LoadEntries | Document_Parser/src/main.rs:234-239 | Loading keeps every stored entry in order and makes exactly their titles known |
| Intake.Run | Document_Parser/src/main.rs:226-310 | The imperative run gives the catalog of the reference run, or its error. It fails exactly when some extraction fails, keeps the loaded catalog as a prefix, appends only titled entries with their hash, and preserves unique titles |
| Scenarios.ResolveYearExamples | Document_Parser/src/main.rs:131-144 | In 2024, `23` is 2023, `99` is 1999, `024` is 24 and `2024` is 2024 |
| Scenarios.JaneiroIsMonthZero | Document_Parser/src/main.rs:124-127 | `janeiro` is month 0 |
| Scenarios.UpperMarchIsMonthTwo | Document_Parser/src/main.rs:120-127 | `MARÇO` is lowered to `março` and is month 2 |
| Scenarios.DezembroIsMonthEleven | Document_Parser/src/main.rs:124-127 | `dezembro` is month 11 |
| Scenarios.NumericDateExample | Document_Parser/src/main.rs:154-180 | `15/03/24` in 2024 is 1710460800, the midnight of 15 March 2024 |
| Scenarios.MatchOfFullDate | Document_Parser/src/main.rs:155-158 | A line that starts with a full `dd/mm/yyyy` has its leftmost match there, capturing the day, month and four-digit year as written, whatever follows |
| Scenarios.InvalidFebruaryExample | Document_Parser/src/main.rs:179 | `31/02/2024` gives no date |
| Scenarios.InvalidDateEndsLineSearch | Document_Parser/src/main.rs:156-180 | A line starting with `31/02/2024` gives no date, whatever follows it |
| Scenarios.MatchOfPortugueseDate | Document_Parser/src/main.rs:115-118 | The leftmost Portuguese match of `15 de março de 24` starts at 0 and captures `15`, `março`, `24` |
| Scenarios.PortugueseDateExample | Document_Parser/src/main.rs:99-152 | `15 de março de 24` in 2024 is 1707955200, the midnight of 15 February 2024 |
| Scenarios.EmptyIdLinkExample | Document_Parser/src/main.rs:190-196 | `_k.pdf` gives the link with an empty id and key `k` |
| Scenarios.ThreePartLinkExample | Document_Parser/src/main.rs:190-199 | `a_b_c.pdf` gives no link |
| Scenarios.DocumentTitle | Document_Parser/src/main.rs:49-58 | For a document whose lines are `RESOLUÇÃO 1` and `12/01/2023`, the title is the first line |
| Scenarios.DocumentDate | Document_Parser/src/main.rs:60-72 | That document's date is the second line's, 12 January 2023, since it has no Portuguese date and its first line no numeric one |
| Scenarios.FirstImport | Document_Parser/src/main.rs:226-310 | A first run over `123_abcKEY.pdf` with that text gives one entry, with the title's hash, the title, the date, the text and the link of id `123` and key `abcKEY` |
| Scenarios.SecondRunSkipsDuplicate | Document_Parser/src/main.rs:226-310 | A second run over another file with the same title leaves that catalog unchanged |
| Scenarios.MalformedNameRejected | Document_Parser/src/main.rs:255-269 | The same text under `nodelimiter.pdf` adds nothing to the catalog, but its title becomes known |

## Left out

- PDF text extraction (`extract_text`, the `pdftotext` process) is not modelled. Each file's output is an input, absent when extraction failed.
- Reading and writing `out/entries.json` with serde is left out. The stored catalog is a parameter and the run's result is the catalog to write. The parse and write errors that abort `main` are not modelled.
- `create_folders_if_not_exist`, its console prompt, and `std::process::exit` are left out as interactive I/O.
- Moving the archived PDF to `old/` is left out. It has no effect on the catalog, and a failed move is only reported.
- Errors from `read_dir` are left out as filesystem I/O. The model takes the folder listing, in directory order, as a sequence.
- The console messages (`println!`, `eprintln!`) are left out. They do not change any state.
- SHA-256 is left out. The hash is the parameter `hash`; the model relies only on the identifier being the hash of the title.
- The clock is left out. `chrono::Local::now().year() % 100` becomes the parameter `curYY`. The source reads the clock at each parse, the model once per run.
- Dates.DigitRun: `\d` is modelled as the ASCII digits. The regex engine's `\d` also matches other Unicode decimal digits, which `parse` then rejects. So where such a digit starts the leftmost match, the source gives no date while the model skips that digit and may find a later one: `٣1/01/2024` gives none in the source and 1 January 2024 in the model. For the same reason the byte length in `year_str.len() == 2` is the character count in the model.
- Text.ToLower: lowercasing is modelled for A–Z and the Latin-1 capitals only. The only use compares against lower-case Portuguese month names, which other characters cannot produce.
- File names are strings. A name that is not valid UTF-8, where `to_str` gives `None`, is not modelled.
- `return_parameters` never returns its error, so the `Err` arm of the match in `main` is unreachable and does nothing in the model either.
- The other crates of the repository (PopulateDB, Server, WebScraper) are not part of this model.
