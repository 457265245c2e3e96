/**
 * The intake run of the document parser: the catalog loaded from the previous
 * run, the known-titles set rebuilt from it, and the loop over the files of the
 * intake folder that appends an entry for every new, linkable title.
 */
module Intake {
  import opened Wrappers
  import opened Text
  import opened DocumentParser

  /** One catalog record; `id` is the hex digest of the title. */
  datatype Entry = Entry(id: string, title: Option<string>, date: Option<int>, content: string, link: string)

  /**
   * One entry of the intake folder: its file name, whether it is a regular file,
   * and what the PDF-to-text tool printed for it (absent when the tool failed).
   */
  datatype InputFile = InputFile(name: string, isFile: bool, text: Option<string>)

  /** The only error that ends a run once the catalog is loaded: text extraction failed. */
  datatype RunError = ExtractionFailed(name: string)

  /** The title markers the run passes to `return_parameters`. */
  const Keywords: seq<string> := ["RESOLUÇÃO", "Cronograma", "Calendário", "Calendario"]

  /** The titles present in a catalog. */
  function TitlesOf(entries: seq<Entry>): set<string> {
    if entries == [] then {}
    else
      var last := entries[|entries| - 1];
      TitlesOf(entries[..|entries| - 1]) + (if last.title.Some? then {last.title.value} else {})
  }

  lemma {:induction false} TitlesOfMembers(entries: seq<Entry>)
    ensures forall t :: t in TitlesOf(entries) <==> exists i :: 0 <= i < |entries| && entries[i].title == Some(t)
  {
    if entries != [] {
      var init := entries[..|entries| - 1];
      TitlesOfMembers(init);
      forall t ensures t in TitlesOf(entries) <==> exists i :: 0 <= i < |entries| && entries[i].title == Some(t) {
        if t in TitlesOf(init) {
          var i :| 0 <= i < |init| && init[i].title == Some(t);
          assert entries[i].title == Some(t);
        }
        if exists i :: 0 <= i < |entries| && entries[i].title == Some(t) {
          var i :| 0 <= i < |entries| && entries[i].title == Some(t);
          if i < |init| {
            assert init[i].title == Some(t);
          }
        }
      }
    }
  }

  lemma TitlesOfAppend(entries: seq<Entry>, e: Entry)
    ensures TitlesOf(entries + [e]) == TitlesOf(entries) + (if e.title.Some? then {e.title.value} else {})
  {
    assert (entries + [e])[..|entries|] == entries;
  }

  /** No two entries carry the same title. */
  predicate UniqueTitles(entries: seq<Entry>) {
    forall i, j :: 0 <= i < j < |entries| && entries[i].title.Some? ==> entries[i].title != entries[j].title
  }

  /** What the loop appends: an entry with a title, identified by that title's hash. */
  predicate IsAppendedEntry(e: Entry, hash: string -> string) {
    e.title.Some? && e.id == hash(e.title.value)
  }

  /** The loop's filter: a regular file whose extension is `pdf`. */
  predicate IsPdf(f: InputFile) {
    f.isFile && Extension(f.name) == Some("pdf")
  }

  /** The loop's state: the catalog so far and the known titles. */
  datatype IntakeState = IntakeState(entries: seq<Entry>, known: set<string>)

  /** Reference definition of one iteration of the loop over the intake folder. */
  function ProcessFile(st: IntakeState, f: InputFile, curYY: int, hash: string -> string): Result<IntakeState, RunError> {
    if !IsPdf(f) then Ok(st)
    else match f.text
      case None => Err(ExtractionFailed(f.name))
      case Some(text) =>
        var p := ParametersOf(text, Keywords, st.known, curYY);
        match p.title
        case None => Ok(st)
        case Some(t) =>
          var known := st.known + {t};
          match GetLink(f.name)
          case Err(_) => Ok(IntakeState(st.entries, known))
          case Ok(link) => Ok(IntakeState(st.entries + [Entry(hash(t), Some(t), p.date, p.content, link)], known))
  }

  /** Reference definition of the loop: the files in directory order, stopping at the first failed extraction. */
  function IntakeFrom(st: IntakeState, files: seq<InputFile>, curYY: int, hash: string -> string): Result<IntakeState, RunError>
    decreases |files|
  {
    if files == [] then Ok(st)
    else match ProcessFile(st, files[0], curYY, hash)
      case Err(e) => Err(e)
      case Ok(next) => IntakeFrom(next, files[1..], curYY, hash)
  }

  /** The whole run: known titles rebuilt from the loaded catalog, then the loop. */
  function Intake(loaded: seq<Entry>, files: seq<InputFile>, curYY: int, hash: string -> string): Result<IntakeState, RunError> {
    IntakeFrom(IntakeState(loaded, TitlesOf(loaded)), files, curYY, hash)
  }

  // ---------------------------------------------------------------------------
  // One iteration

  /** A file whose title is already known leaves catalog and known titles as they are. */
  lemma DuplicateNotAppended(st: IntakeState, f: InputFile, curYY: int, hash: string -> string)
    requires IsPdf(f) && f.text.Some?
    requires FirstTitleLine(Lines(f.text.value), Keywords).Some?
    requires FirstTitleLine(Lines(f.text.value), Keywords).value in st.known
    ensures ProcessFile(st, f, curYY, hash) == Ok(st)
  {
  }

  /** A file without a title line leaves catalog and known titles as they are. */
  lemma TitlelessNotAppended(st: IntakeState, f: InputFile, curYY: int, hash: string -> string)
    requires IsPdf(f) && f.text.Some?
    requires FirstTitleLine(Lines(f.text.value), Keywords).None?
    ensures ProcessFile(st, f, curYY, hash) == Ok(st)
  {
  }

  /** A run over one file is that file's step. */
  lemma SingleFileRun(st: IntakeState, f: InputFile, curYY: int, hash: string -> string)
    ensures IntakeFrom(st, [f], curYY, hash) == ProcessFile(st, f, curYY, hash)
  {
    assert [f][1..] == [];
  }

  /** A new title whose file name has no `id_key` form is remembered, but nothing is appended. */
  lemma LinkFailureRemembersTitle(st: IntakeState, f: InputFile, curYY: int, hash: string -> string)
    requires IsPdf(f) && f.text.Some?
    requires FirstTitleLine(Lines(f.text.value), Keywords).Some?
    requires FirstTitleLine(Lines(f.text.value), Keywords).value !in st.known
    requires GetLink(f.name).Err?
    ensures ProcessFile(st, f, curYY, hash)
            == Ok(IntakeState(st.entries, st.known + {FirstTitleLine(Lines(f.text.value), Keywords).value}))
  {
  }

  /** A new title with a valid file name is appended with its hash, date, text and link. */
  lemma NewTitleAppended(st: IntakeState, f: InputFile, curYY: int, hash: string -> string)
    requires IsPdf(f) && f.text.Some?
    requires FirstTitleLine(Lines(f.text.value), Keywords).Some?
    requires FirstTitleLine(Lines(f.text.value), Keywords).value !in st.known
    requires GetLink(f.name).Ok?
    ensures var text := f.text.value;
            var t := FirstTitleLine(Lines(text), Keywords).value;
            ProcessFile(st, f, curYY, hash)
            == Ok(IntakeState(st.entries + [Entry(hash(t), Some(t), DateOf(text, curYY), text, GetLink(f.name).value)],
                              st.known + {t}))
  {
  }

  /**
   * One iteration keeps the known set a superset of the catalog's titles, only
   * grows the known set, and either leaves the catalog as it is or appends one
   * entry, whose title was not known before.
   */
  lemma {:induction false} ProcessFileStep(st: IntakeState, f: InputFile, curYY: int, hash: string -> string)
    requires TitlesOf(st.entries) <= st.known
    ensures ProcessFile(st, f, curYY, hash).Ok? ==>
              var next := ProcessFile(st, f, curYY, hash).value;
              TitlesOf(next.entries) <= next.known && st.known <= next.known
              && (next.entries == st.entries
                  || (next.entries == st.entries + [next.entries[|st.entries|]]
                      && IsAppendedEntry(next.entries[|st.entries|], hash)
                      && next.entries[|st.entries|].title.value !in st.known))
  {
    if IsPdf(f) && f.text.Some? {
      var p := ParametersOf(f.text.value, Keywords, st.known, curYY);
      if p.title.Some? && GetLink(f.name).Ok? {
        var t := p.title.value;
        var e := Entry(hash(t), Some(t), p.date, p.content, GetLink(f.name).value);
        TitlesOfAppend(st.entries, e);
      }
    }
  }

  /** Appending an entry whose title is not among the known ones keeps titles unique. */
  lemma UniqueAfterAppend(entries: seq<Entry>, known: set<string>, e: Entry)
    requires UniqueTitles(entries) && TitlesOf(entries) <= known
    requires e.title.Some? && e.title.value !in known
    ensures UniqueTitles(entries + [e])
  {
    TitlesOfMembers(entries);
    var all := entries + [e];
    forall i, j | 0 <= i < j < |all| && all[i].title.Some?
      ensures all[i].title != all[j].title
    {
      assert all[i] == entries[i];
      if j == |entries| {
        assert all[i].title.value in TitlesOf(entries);
      } else {
        assert all[j] == entries[j];
      }
    }
  }

  // ---------------------------------------------------------------------------
  // The whole loop

  /**
   * Over a whole run the catalog only grows, keeps what it had as its prefix,
   * gains only entries that carry a title and that title's hash, and keeps its
   * titles unique if they were unique to begin with.
   */
  lemma {:induction false} IntakeFromGrows(st: IntakeState, files: seq<InputFile>, curYY: int, hash: string -> string)
    requires TitlesOf(st.entries) <= st.known
    ensures IntakeFrom(st, files, curYY, hash).Ok? ==>
              var fin := IntakeFrom(st, files, curYY, hash).value;
              st.entries <= fin.entries && st.known <= fin.known && TitlesOf(fin.entries) <= fin.known
              && (forall k :: |st.entries| <= k < |fin.entries| ==> IsAppendedEntry(fin.entries[k], hash))
              && (UniqueTitles(st.entries) ==> UniqueTitles(fin.entries))
    decreases |files|
  {
    if files != [] && ProcessFile(st, files[0], curYY, hash).Ok? {
      var next := ProcessFile(st, files[0], curYY, hash).value;
      ProcessFileStep(st, files[0], curYY, hash);
      if next.entries != st.entries && UniqueTitles(st.entries) {
        UniqueAfterAppend(st.entries, st.known, next.entries[|st.entries|]);
      }
      IntakeFromGrows(next, files[1..], curYY, hash);
      assert IntakeFrom(st, files, curYY, hash) == IntakeFrom(next, files[1..], curYY, hash);
      if IntakeFrom(next, files[1..], curYY, hash).Ok? {
        var fin := IntakeFrom(next, files[1..], curYY, hash).value;
        assert next.entries <= fin.entries;
        if next.entries != st.entries {
          assert fin.entries[|st.entries|] == next.entries[|st.entries|];
        }
      }
    }
  }

  /** A run fails exactly when the text of some PDF in the folder cannot be extracted. */
  lemma {:induction false} IntakeFromFails(st: IntakeState, files: seq<InputFile>, curYY: int, hash: string -> string)
    ensures IntakeFrom(st, files, curYY, hash).Err?
            <==> exists i :: 0 <= i < |files| && IsPdf(files[i]) && files[i].text.None?
    decreases |files|
  {
    if files != [] {
      match ProcessFile(st, files[0], curYY, hash)
      case Err(_) =>
        assert IsPdf(files[0]) && files[0].text.None?;
      case Ok(next) =>
        IntakeFromFails(next, files[1..], curYY, hash);
        if exists i :: 0 <= i < |files| && IsPdf(files[i]) && files[i].text.None? {
          var i :| 0 <= i < |files| && IsPdf(files[i]) && files[i].text.None?;
          assert i > 0;
          assert files[1..][i - 1] == files[i];
        }
        if exists i :: 0 <= i < |files[1..]| && IsPdf(files[1..][i]) && files[1..][i].text.None? {
          var i :| 0 <= i < |files[1..]| && IsPdf(files[1..][i]) && files[1..][i].text.None?;
          assert files[i + 1] == files[1..][i];
        }
    }
  }

  // ---------------------------------------------------------------------------
  // The imperative run

  /** The load step: every stored entry is kept, in order, and its title becomes known. */
  method LoadEntries(stored: seq<Entry>) returns (entries: seq<Entry>, existingTitles: set<string>)
    ensures entries == stored
    ensures existingTitles == TitlesOf(stored)
  {
    entries := [];
    existingTitles := {};
    var i := 0;
    while i < |stored|
      invariant 0 <= i <= |stored|
      invariant entries == stored[..i]
      invariant existingTitles == TitlesOf(entries)
    {
      var entry := stored[i];
      if entry.title.Some? {
        existingTitles := existingTitles + {entry.title.value};
      }
      TitlesOfAppend(entries, entry);
      entries := entries + [entry];
      i := i + 1;
    }
    assert stored[..i] == stored;
  }

  /**
   * The run: load, then every PDF of the folder in turn. A new title is added to
   * the known set at once; the entry is appended only if the file name yields a
   * link. The result is the catalog that is written back, or the extraction
   * error that ends the run before anything is written.
   */
  method Run(loaded: seq<Entry>, files: seq<InputFile>, curYY: int, hash: string -> string)
    returns (r: Result<seq<Entry>, RunError>)
    ensures Intake(loaded, files, curYY, hash).Ok? ==> r == Ok(Intake(loaded, files, curYY, hash).value.entries)
    ensures Intake(loaded, files, curYY, hash).Err? ==> r == Err(Intake(loaded, files, curYY, hash).error)
    ensures r.Err? <==> exists i :: 0 <= i < |files| && IsPdf(files[i]) && files[i].text.None?
    ensures r.Ok? ==> loaded <= r.value
    ensures r.Ok? ==> forall k :: |loaded| <= k < |r.value| ==> IsAppendedEntry(r.value[k], hash)
    ensures r.Ok? && UniqueTitles(loaded) ==> UniqueTitles(r.value)
  {
    IntakeFromFails(IntakeState(loaded, TitlesOf(loaded)), files, curYY, hash);
    IntakeFromGrows(IntakeState(loaded, TitlesOf(loaded)), files, curYY, hash);
    var entries, existingTitles := LoadEntries(loaded);
    var i := 0;
    while i < |files|
      invariant 0 <= i <= |files|
      invariant Intake(loaded, files, curYY, hash) == IntakeFrom(IntakeState(entries, existingTitles), files[i..], curYY, hash)
    {
      assert files[i..][1..] == files[i + 1..];
      var f := files[i];
      if f.isFile && Extension(f.name) == Some("pdf") {
        if f.text.None? {
          return Err(ExtractionFailed(f.name));
        }
        var text := f.text.value;
        var params := ReturnParameters(text, Keywords, existingTitles, curYY);
        match params
        case Ok(p) =>
          if p.title.Some? {
            var title := p.title.value;
            existingTitles := existingTitles + {title};
            var titleHash := hash(title);
            var link := GetLink(f.name);
            if link.Err? {
              i := i + 1;
              continue;
            }
            entries := entries + [Entry(titleHash, p.title, p.date, p.content, link.value)];
          }
        case Err(_) =>
      }
      i := i + 1;
    }
    r := Ok(entries);
  }
}
