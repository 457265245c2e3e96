/**
 * The per-document steps of the intake: title detection (`return_title`), date
 * detection (`return_date`), the duplicate policy (`return_parameters`) and the
 * link built from the file name (`get_link`).
 */
module DocumentParser {
  import opened Wrappers
  import opened Text
  import opened Dates

  // ---------------------------------------------------------------------------
  // Title detection

  /** Line `i` is the first line that contains some keyword. */
  predicate IsFirstTitleLine(lines: seq<string>, keywords: seq<string>, i: int) {
    0 <= i < |lines| && ContainsAny(lines[i], keywords)
    && forall j :: 0 <= j < i ==> !ContainsAny(lines[j], keywords)
  }

  /** Reference definition of the detected title: the first line with a keyword. */
  function FirstTitleLine(lines: seq<string>, keywords: seq<string>): Option<string> {
    if lines == [] then None
    else if ContainsAny(lines[0], keywords) then Some(lines[0])
    else FirstTitleLine(lines[1..], keywords)
  }

  /** The reference definition finds the first keyword line, and finds nothing only when no line has one. */
  lemma {:induction false} FirstTitleLineSpec(lines: seq<string>, keywords: seq<string>)
    ensures FirstTitleLine(lines, keywords).None?
            <==> forall i :: 0 <= i < |lines| ==> !ContainsAny(lines[i], keywords)
    ensures FirstTitleLine(lines, keywords).Some?
            ==> exists i :: IsFirstTitleLine(lines, keywords, i) && lines[i] == FirstTitleLine(lines, keywords).value
  {
    if lines != [] && !ContainsAny(lines[0], keywords) {
      FirstTitleLineSpec(lines[1..], keywords);
      if FirstTitleLine(lines[1..], keywords).Some? {
        var i :| IsFirstTitleLine(lines[1..], keywords, i) && lines[1..][i] == FirstTitleLine(lines[1..], keywords).value;
        assert IsFirstTitleLine(lines, keywords, i + 1);
      }
    } else if lines != [] {
      assert IsFirstTitleLine(lines, keywords, 0);
    }
  }

  /** `return_title`: scan the lines in order and stop at the first one with a keyword. */
  method ReturnTitle(text: string, keywords: seq<string>) returns (found: Option<string>)
    ensures found == FirstTitleLine(Lines(text), keywords)
    ensures found.None? <==> forall i :: 0 <= i < |Lines(text)| ==> !ContainsAny(Lines(text)[i], keywords)
    ensures found.Some? ==> exists i :: IsFirstTitleLine(Lines(text), keywords, i) && found.value == Lines(text)[i]
  {
    var lines := Lines(text);
    found := None;
    var i := 0;
    while i < |lines|
      invariant 0 <= i <= |lines|
      invariant forall j :: 0 <= j < i ==> !ContainsAny(lines[j], keywords)
      invariant FirstTitleLine(lines[i..], keywords) == FirstTitleLine(lines, keywords)
    {
      if ContainsAny(lines[i], keywords) {
        found := Some(lines[i]);
        assert IsFirstTitleLine(lines, keywords, i);
        break;
      }
      assert lines[i..][1..] == lines[i + 1..];
      i := i + 1;
    }
    FirstTitleLineSpec(lines, keywords);
  }

  // ---------------------------------------------------------------------------
  // Date detection

  /** Reference definition of the line-by-line numeric search: the first line that yields a date. */
  function FirstLineDate(lines: seq<string>, curYY: int): Option<int> {
    if lines == [] then None
    else if ExtractDate(lines[0], curYY).Some? then ExtractDate(lines[0], curYY)
    else FirstLineDate(lines[1..], curYY)
  }

  /** The detected date: the Portuguese form anywhere in the text first, then the numeric form line by line. */
  function DateOf(text: string, curYY: int): Option<int> {
    var pt := ExtractPortugueseDate(text, curYY);
    if pt.Some? then pt else FirstLineDate(Lines(text), curYY)
  }

  /** Line `i` is the first line whose numeric date is valid, and this is its date. */
  predicate IsFirstDateLine(lines: seq<string>, curYY: int, i: int, date: int) {
    0 <= i < |lines| && ExtractDate(lines[i], curYY) == Some(date)
    && forall j :: 0 <= j < i ==> ExtractDate(lines[j], curYY).None?
  }

  /** `return_date`: the Portuguese parser on the whole text, then `extract_date` on each line with an early return. */
  method ReturnDate(text: string, curYY: int) returns (date: Option<int>)
    ensures date == DateOf(text, curYY)
    ensures ExtractPortugueseDate(text, curYY).Some? ==> date == ExtractPortugueseDate(text, curYY)
    ensures ExtractPortugueseDate(text, curYY).None? ==>
              (date.None? <==> forall i :: 0 <= i < |Lines(text)| ==> ExtractDate(Lines(text)[i], curYY).None?)
    ensures ExtractPortugueseDate(text, curYY).None? && date.Some? ==>
              exists i :: IsFirstDateLine(Lines(text), curYY, i, date.value)
  {
    var pt := ExtractPortugueseDate(text, curYY);
    if pt.Some? {
      return pt;
    }
    var lines := Lines(text);
    var i := 0;
    while i < |lines|
      invariant 0 <= i <= |lines|
      invariant forall j :: 0 <= j < i ==> ExtractDate(lines[j], curYY).None?
      invariant FirstLineDate(lines[i..], curYY) == FirstLineDate(lines, curYY)
    {
      var d := ExtractDate(lines[i], curYY);
      if d.Some? {
        assert IsFirstDateLine(lines, curYY, i, d.value);
        assert ExtractDate(Lines(text)[i], curYY).Some?;
        return d;
      }
      assert lines[i..][1..] == lines[i + 1..];
      i := i + 1;
    }
    return None;
  }

  // ---------------------------------------------------------------------------
  // Duplicate policy

  /** What `return_parameters` hands back: title, content, date and the duplicate flag. */
  datatype Parameters = Parameters(title: Option<string>, content: string, date: Option<int>, isDuplicate: bool)

  /** The error type of `return_parameters`; no path produces it. */
  datatype OutputError = OutputError

  /** Reference definition of the duplicate policy. */
  function ParametersOf(text: string, keywords: seq<string>, existing: set<string>, curYY: int): Parameters {
    var title := FirstTitleLine(Lines(text), keywords);
    if title.Some? && title.value in existing then Parameters(None, text, None, true)
    else Parameters(title, text, DateOf(text, curYY), false)
  }

  /**
   * `return_parameters`: a title already known wipes title and date and flags a
   * duplicate; otherwise both are passed through. The text is returned unchanged.
   */
  method ReturnParameters(text: string, keywords: seq<string>, existing: set<string>, curYY: int)
    returns (r: Result<Parameters, OutputError>)
    ensures r == Ok(ParametersOf(text, keywords, existing, curYY))
    ensures r.Ok? && r.value.content == text
    ensures r.value.isDuplicate <==>
              (FirstTitleLine(Lines(text), keywords).Some? && FirstTitleLine(Lines(text), keywords).value in existing)
    ensures r.value.isDuplicate ==> r.value.title.None? && r.value.date.None?
    ensures !r.value.isDuplicate ==>
              r.value.title == FirstTitleLine(Lines(text), keywords) && r.value.date == DateOf(text, curYY)
    ensures r.value.title.Some? ==> r.value.title.value !in existing
  {
    var foundTitle := ReturnTitle(text, keywords);
    var foundDate := ReturnDate(text, curYY);
    var resultTitle := foundTitle;
    var resultDate := foundDate;
    var isDuplicate := false;
    if foundTitle.Some? && foundTitle.value in existing {
      resultTitle := None;
      resultDate := None;
      isDuplicate := true;
    }
    r := Ok(Parameters(resultTitle, text, resultDate, isDuplicate));
  }

  // ---------------------------------------------------------------------------
  // Link resolution

  const LinkPrefix: string := "https://sig.unb.br/sigrh/downloadArquivo?idArquivo="

  /** Position of the last `c` in `s`, or -1 when there is none. */
  function LastIndexOf(s: string, c: char): (k: int)
    ensures -1 <= k < |s|
    ensures k >= 0 ==> s[k] == c
    ensures forall j :: k < j < |s| ==> s[j] != c
  {
    if s == [] then -1
    else if s[|s| - 1] == c then |s| - 1
    else LastIndexOf(s[..|s| - 1], c)
  }

  /**
   * `Path::file_stem` and `Path::extension` of a file name: split at the last
   * dot, unless there is none, or the only one starts the name, or the name is `..`.
   */
  function SplitExtension(name: string): (r: (string, Option<string>))
    ensures r.1.None? ==> r.0 == name
    ensures r.1.Some? ==> name == r.0 + "." + r.1.value && r.0 != [] && '.' !in r.1.value
  {
    var k := LastIndexOf(name, '.');
    if name == ".." || k <= 0 then (name, None)
    else
      assert name == name[..k] + "." + name[k + 1..];
      (name[..k], Some(name[k + 1..]))
  }

  /** `Path::file_stem`: absent only when there is no file name. */
  function FileStem(name: string): Option<string> {
    if name == [] then None else Some(SplitExtension(name).0)
  }

  function Extension(name: string): Option<string> {
    if name == [] then None else SplitExtension(name).1
  }

  /** The error of `get_link`: the file name does not have the `id_key` form. */
  datatype LinkError = InvalidFilename(name: string)

  /**
   * `get_link`: the stem split on every `_` must give exactly two parts, the
   * file's id and key, which fill the download URL. Anything else is an error.
   */
  function GetLink(name: string): (r: Result<string, LinkError>)
    ensures r.Ok? <==> FileStem(name).Some? && Count(FileStem(name).value, '_') == 1
    ensures r.Ok? ==>
              var parts := Split(FileStem(name).value, '_');
              |parts| == 2 && FileStem(name).value == parts[0] + "_" + parts[1]
              && r.value == LinkPrefix + parts[0] + "&key=" + parts[1]
    ensures r.Err? ==> r.error == InvalidFilename(name)
  {
    match FileStem(name)
    case None => Err(InvalidFilename(name))
    case Some(stem) =>
      var parts := Split(stem, '_');
      SplitCount(stem, '_');
      SplitJoin(stem, '_');
      if |parts| == 2 then
        assert Join(parts, '_') == parts[0] + ['_'] + Join(parts[1..], '_');
        Ok(LinkPrefix + parts[0] + "&key=" + parts[1])
      else Err(InvalidFilename(name))
  }

  /** A name made of a non-empty stem, a dot and a dot-free extension splits back into the two. */
  lemma StemAndExtension(stem: string, ext: string)
    requires stem != [] && '.' !in ext && stem + "." + ext != ".."
    ensures FileStem(stem + "." + ext) == Some(stem)
    ensures Extension(stem + "." + ext) == Some(ext)
  {
    var name := stem + "." + ext;
    assert name[|stem|] == '.';
    assert name[|stem| + 1..] == ext;
    assert LastIndexOf(name, '.') == |stem|;
    assert name[..|stem|] == stem;
  }

  /** A stem with no underscore or with several is rejected, whatever its extension. */
  lemma GetLinkRejectsPartCount(stem: string, ext: string)
    requires stem != [] && '.' !in ext && stem + "." + ext != ".."
    requires Count(stem, '_') != 1
    ensures GetLink(stem + "." + ext) == Err(InvalidFilename(stem + "." + ext))
  {
    StemAndExtension(stem, ext);
  }

  /** The inverse direction: a file named `<id>_<key>.pdf` yields the download URL of that id and key. */
  lemma GetLinkOfIdKey(id: string, key: string)
    requires '_' !in id && '_' !in key
    ensures Extension(id + "_" + key + ".pdf") == Some("pdf")
    ensures GetLink(id + "_" + key + ".pdf") == Ok(LinkPrefix + id + "&key=" + key)
  {
    var stem := id + "_" + key;
    assert id + "_" + key + ".pdf" == stem + "." + "pdf";
    StemAndExtension(stem, "pdf");
    assert stem[|id|] == '_';
    assert IndexOf(stem, '_') == |id|;
    assert stem[..|id|] == id && stem[|id| + 1..] == key;
    assert Split(key, '_') == [key];
    assert Split(stem, '_') == [id, key];
  }
}
