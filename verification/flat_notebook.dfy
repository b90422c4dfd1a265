/** The flat application: one `notes` directory holding one
    `<date>_notes.txt` file per day, plus the `all_notes.txt` export that
    lives beside them and is therefore picked up by every later scan. */
module FlatNotebook {
  import opened Results
  import opened Text
  import opened LineFiles
  import opened Corpus
  import opened Scanning
  import opened Exporting
  import opened WordStats

  const NotesDir := "notes"

  /** The export's file name inside the notes directory. */
  const ExportName := "all_notes.txt"

  /** The export is itself a `.txt` file. */
  lemma {:induction false} ExportNameIsTxt()
    ensures IsTxt(ExportName)
  {
    assert ExportName == "all_notes" + ".txt";
  }

  /** The notes directory as the only directory a scan visits. */
  function FlatShelf(fs: Folder): Shelf {
    [Directory(NotesDir, fs)]
  }

  /** A scan of the flat shelf holds exactly the lines of the listed files. */
  lemma {:induction false} FlatHolds(fs: Folder, e: Entry)
    ensures Holds(FlatShelf(fs), e)
        <==> e.dir == NotesDir && exists f :: f in fs && f.name == e.file && e.text in Lines(f.content)
  {
    if e.dir == NotesDir && exists f :: f in fs && f.name == e.file && e.text in Lines(f.content) {
      var f :| f in fs && f.name == e.file && e.text in Lines(f.content);
      assert Directory(NotesDir, fs) in FlatShelf(fs);
    }
  }

  // ---------------------------------------------------------------------
  // Add Note

  /** Add Note: a blank answer writes nothing; otherwise the note and a line
      feed are appended to today's file, which is created when missing. */
  function AddNote(fs: Folder, note: Option<string>, today: string): (r: Folder)
    ensures Blank(note) ==> r == fs
    ensures !Blank(note) ==>
      && Lookup(r, NoteFileName(today)) == Some(Content(fs, NoteFileName(today)) + note.value + "\n")
      && forall n :: n != NoteFileName(today) ==> Lookup(r, n) == Lookup(fs, n)
  {
    if Blank(note) then fs
    else
      var name := NoteFileName(today);
      assert Content(fs, name) + (note.value + "\n") == Content(fs, name) + note.value + "\n";
      Append(fs, name, note.value + "\n")
  }

  /** When today's file ends at a line boundary and the note is one line,
      the note becomes exactly one more line at the end of the file. */
  lemma {:induction false} AddNoteAppendsLine(fs: Folder, note: string, today: string)
    requires note != [] && NoNewline(note)
    requires Terminated(Content(fs, NoteFileName(today)))
    ensures
      var name := NoteFileName(today);
      Lines(Content(AddNote(fs, Some(note), today), name)) == Lines(Content(fs, name)) + [note + "\n"]
  {
    var name := NoteFileName(today);
    LinesAppend(Content(fs, name), note + "\n");
    OneLine(note);
  }

  // ---------------------------------------------------------------------
  // Delete Note

  datatype DeleteError =
    | NoNotesToday        // today's file does not exist
    | SelectionOutOfRange // `lines.pop(index)` past the end

  /** Opening the Delete window: today's file must exist; its lines are read
      once, here, and listed in the list box. */
  function OpenDelete(fs: Folder, today: string): (r: Result<seq<string>, DeleteError>)
    ensures r == Err(NoNotesToday) <==> NoteFileName(today) !in Names(fs)
    ensures r.Ok? ==> Join(r.value) == Content(fs, NoteFileName(today)) && WellFormed(r.value)
  {
    var name := NoteFileName(today);
    LookupFound(fs, name);
    match Lookup(fs, name)
    case None => Err(NoNotesToday)
    case Some(content) =>
      JoinLines(content);
      LinesWellFormed(content);
      Ok(Lines(content))
  }

  /** After a delete: the directory, and the window's remaining lines. */
  datatype Deleted = Deleted(folder: Folder, lines: seq<string>)

  /** Delete Selected: `lines` are the window's lines (read when it opened,
      minus rows deleted since) and `selection` is the 0-based list-box row,
      `None` when nothing is selected. `today` is the date the window was
      opened with, since the file's path is fixed when it opens. The row is
      popped from the window's lines and they are written over that file,
      whatever it holds now. */
  function DeleteSelected(fs: Folder, today: string, lines: seq<string>, selection: Option<nat>): Result<Deleted, DeleteError> {
    if selection.None? then Ok(Deleted(fs, lines))
    else if selection.value >= |lines| then Err(SelectionOutOfRange)
    else
      var rest := RemoveAt(lines, selection.value);
      Ok(Deleted(Put(fs, NoteFileName(today), Join(rest)), rest))
  }

  /** Deleting fails exactly when the row is past the window's last line;
      with no selection nothing changes; otherwise the window loses exactly
      the selected line, today's file then reads as the window's remaining
      lines, and no other file changes. */
  lemma {:induction false} DeleteSelectedSpec(fs: Folder, today: string, lines: seq<string>, selection: Option<nat>)
    requires WellFormed(lines)
    ensures
      var name := NoteFileName(today);
      var r := DeleteSelected(fs, today, lines, selection);
      && (r == Err(SelectionOutOfRange) <==> selection.Some? && selection.value >= |lines|)
      && (selection.None? ==> r == Ok(Deleted(fs, lines)))
      && (r.Ok? && selection.Some? ==>
            && r.value.lines == RemoveAt(lines, selection.value)
            && |r.value.lines| + 1 == |lines|
            && WellFormed(r.value.lines)
            && Lines(Content(r.value.folder, name)) == r.value.lines
            && forall n :: n != name ==> Lookup(r.value.folder, n) == Lookup(fs, n))
  {
    var r := DeleteSelected(fs, today, lines, selection);
    if r.Ok? && selection.Some? {
      RemoveAtWellFormed(lines, selection.value);
      LinesJoin(RemoveAt(lines, selection.value));
    }
  }

  /** Deleting right after opening the window: the file loses exactly the
      selected line and keeps the others in order. */
  lemma {:induction false} DeleteAfterOpening(fs: Folder, today: string, i: nat)
    requires OpenDelete(fs, today).Ok?
    ensures
      var name := NoteFileName(today);
      var lines := OpenDelete(fs, today).value;
      var r := DeleteSelected(fs, today, lines, Some(i));
      && lines == Lines(Content(fs, name))
      && (r.Ok? <==> i < |lines|)
      && (r.Ok? ==> Lines(Content(r.value.folder, name)) == RemoveAt(Lines(Content(fs, name)), i))
  {
    var name := NoteFileName(today);
    var lines := OpenDelete(fs, today).value;
    LinesJoin(lines);
    DeleteSelectedSpec(fs, today, lines, Some(i));
  }

  /** The window is not modal: a note added while it is open is not among
      its lines, so the next delete writes the file back without it. The
      file ends two lines shorter than just before the delete. */
  lemma {:induction false} DeleteLosesNoteAddedMeanwhile(fs: Folder, today: string, note: string, i: nat)
    requires OpenDelete(fs, today).Ok? && Terminated(Content(fs, NoteFileName(today)))
    requires note != [] && NoNewline(note)
    requires i < |OpenDelete(fs, today).value|
    ensures
      var name := NoteFileName(today);
      var lines := OpenDelete(fs, today).value;
      var added := AddNote(fs, Some(note), today);
      var after := DeleteSelected(added, today, lines, Some(i)).value.folder;
      && Lines(Content(added, name)) == lines + [note + "\n"]
      && Lines(Content(after, name)) == RemoveAt(lines, i)
      && |Lines(Content(after, name))| + 2 == |Lines(Content(added, name))|
  {
    var name := NoteFileName(today);
    var lines := OpenDelete(fs, today).value;
    var added := AddNote(fs, Some(note), today);
    LinesJoin(lines);
    AddNoteAppendsLine(fs, note, today);
    DeleteSelectedSpec(added, today, lines, Some(i));
  }

  // ---------------------------------------------------------------------
  // Search

  /** One search hit: the file name and the stripped line. */
  datatype Match = Match(file: string, text: string)

  function ToMatches(es: seq<Entry>): (ms: seq<Match>)
    ensures |ms| == |es|
    ensures forall i :: 0 <= i < |es| ==> ms[i] == Match(es[i].file, Strip(es[i].text, IsSpace))
  {
    if es == [] then [] else [Match(es[0].file, Strip(es[0].text, IsSpace))] + ToMatches(es[1..])
  }

  /** Search Notes: nothing for a blank keyword; otherwise every line of every
      `.txt` file that contains the keyword, ignoring case. */
  function Search(fs: Folder, keyword: Option<string>): (r: Option<seq<Match>>)
    ensures r.None? <==> Blank(keyword)
  {
    if Blank(keyword) then None
    else Some(ToMatches(Scan(FlatShelf(fs), Keyword(keyword.value, []))))
  }

  /** Hits come in listing order, then line order: they are the matching
      lines of the corpus, in order, each stripped. */
  lemma {:induction false} SearchOrder(fs: Folder, keyword: string)
    requires keyword != []
    ensures Search(fs, Some(keyword)).value
         == ToMatches(Filter(Keyword(keyword, []), Entries(FlatShelf(fs))))
  {
    ScanIsFilter(FlatShelf(fs), Keyword(keyword, []));
  }

  /** `l`, a line of `f`, is a keyword hit of the flat shelf. */
  ghost predicate LineHit(fs: Folder, keyword: string, f: NoteFile, l: string) {
    f in fs && IsTxt(f.name) && l in Lines(f.content) && Contains(Lower(l), Lower(keyword))
  }

  lemma {:induction false} SearchHitHasSource(fs: Folder, keyword: string, m: Match)
    requires keyword != [] && m in Search(fs, Some(keyword)).value
    ensures exists f, l :: LineHit(fs, keyword, f, l) && f.name == m.file && m.text == Strip(l, IsSpace)
  {
    var q := Keyword(keyword, []);
    var es := Scan(FlatShelf(fs), q);
    var i :| 0 <= i < |es| && ToMatches(es)[i] == m;
    var e := es[i];
    ScanMembership(FlatShelf(fs), q, e);
    FlatHolds(fs, e);
    var f :| f in fs && f.name == e.file && e.text in Lines(f.content);
    assert LineHit(fs, keyword, f, e.text);
  }

  lemma {:induction false} SourceIsSearchHit(fs: Folder, keyword: string, f: NoteFile, l: string)
    requires keyword != [] && LineHit(fs, keyword, f, l)
    ensures Match(f.name, Strip(l, IsSpace)) in Search(fs, Some(keyword)).value
  {
    var q := Keyword(keyword, []);
    var es := Scan(FlatShelf(fs), q);
    var e := Entry(NotesDir, f.name, l);
    FlatHolds(fs, e);
    ScanMembership(FlatShelf(fs), q, e);
    var i :| 0 <= i < |es| && es[i] == e;
    assert ToMatches(es)[i] == Match(f.name, Strip(l, IsSpace));
  }

  /** A hit is reported for exactly the lines of `.txt` files containing the
      keyword, ignoring case. */
  lemma {:induction false} SearchExact(fs: Folder, keyword: string, m: Match)
    requires keyword != []
    ensures m in Search(fs, Some(keyword)).value <==>
      exists f, l :: LineHit(fs, keyword, f, l) && f.name == m.file && m.text == Strip(l, IsSpace)
  {
    if m in Search(fs, Some(keyword)).value {
      SearchHitHasSource(fs, keyword, m);
    }
    if exists f, l :: LineHit(fs, keyword, f, l) && f.name == m.file && m.text == Strip(l, IsSpace) {
      var f, l :| LineHit(fs, keyword, f, l) && f.name == m.file && m.text == Strip(l, IsSpace);
      SourceIsSearchHit(fs, keyword, f, l);
    }
  }

  // ---------------------------------------------------------------------
  // Stats

  /** Stats: the number of lines of all `.txt` files and a lower-cased token
      of maximal count, or "None" when there are no words. */
  function FlatStats(fs: Folder): (r: Stats)
    ensures r.total == FolderTotal(fs)
    ensures r.mostUsed == "None" <==> ShelfWords(FlatShelf(fs), KeepPunctuation) == []
    ensures r.mostUsed != "None" ==>
      var m := CountWords(ShelfWords(FlatShelf(fs), KeepPunctuation));
      && IsCountedWord(KeepPunctuation, r.mostUsed)
      && r.mostUsed in m && forall v :: v in m ==> m[v] <= m[r.mostUsed]
  {
    assert Lower("None")[0] == 'n';
    assert ShelfTotal(FlatShelf(fs)) == FolderTotal(fs) + ShelfTotal([]);
    ShelfStats(FlatShelf(fs), KeepPunctuation, "None")
  }

  // ---------------------------------------------------------------------
  // Export All

  /** The export file as opened for writing: truncated and listed, so the
      scan that fills it sees it, still empty. */
  function Opened(fs: Folder): Folder {
    Put(fs, ExportName, [])
  }

  /** Export All: every `.txt` file of the directory as it stands once the
      export is opened, each behind a `--- file ---` header and followed by a
      line feed, is written to `all_notes.txt`; nothing else changes. */
  function ExportAll(fs: Folder): (r: Folder)
    ensures Lookup(r, ExportName) == Some(Export(FlatShelf(Opened(fs)), Flat))
    ensures forall n :: n != ExportName ==> Lookup(r, n) == Lookup(fs, n)
    ensures |fs| <= |r|
    ensures forall i :: 0 <= i < |fs| && fs[i].name != ExportName ==> r[i] == fs[i]
  {
    var emptied := Opened(fs);
    assert forall n :: n != ExportName ==> Lookup(emptied, n) == Lookup(fs, n);
    assert forall i :: 0 <= i < |fs| && fs[i].name != ExportName ==> emptied[i] == fs[i];
    Put(emptied, ExportName, Export(FlatShelf(emptied), Flat))
  }

  /** The export shows every other `.txt` file: its header line and each of
      its lines. */
  lemma {:induction false} ExportAllShows(fs: Folder, f: NoteFile)
    ensures Lines(Content(ExportAll(fs), ExportName)) == SectionsLines(Flat, TxtFiles(FlatShelf(Opened(fs))))
    ensures f in fs && f.name != ExportName && IsTxt(f.name) ==> Shows(Flat, NotesDir, f, Content(ExportAll(fs), ExportName))
  {
    var emptied := Opened(fs);
    ExportLines(FlatShelf(emptied), Flat);
    if f in fs && f.name != ExportName && IsTxt(f.name) {
      var i :| 0 <= i < |fs| && fs[i] == f;
      assert emptied[i] == f;
      ExportShows(FlatShelf(emptied), Flat, Directory(NotesDir, emptied), f);
    }
  }

  /** A line feed at the end of a line keeps a keyword match and does not
      change what the line strips to. */
  lemma {:induction false} TerminateKeepsMatch(l: string, keyword: string)
    requires Contains(Lower(l), Lower(keyword))
    ensures Contains(Lower(Terminate(l)), Lower(keyword))
    ensures Strip(Terminate(l), IsSpace) == Strip(l, IsSpace)
  {
    if Terminate(l) != l {
      assert Terminate(l) == l + ['\n'];
      LowerAppend(l, ['\n']);
      ContainsExtend(Lower(l), Lower(['\n']), Lower(keyword));
      StripDropLast(l, '\n', IsSpace);
    }
  }

  lemma {:induction false} ExportKeepsFile(fs: Folder, f: NoteFile)
    requires f in fs && f.name != ExportName
    ensures f in ExportAll(fs)
  {
    var i :| 0 <= i < |fs| && fs[i] == f;
    assert ExportAll(fs)[i] == f;
  }

  lemma {:induction false} ExportHoldsLine(fs: Folder, f: NoteFile, l: string)
    requires f in fs && f.name != ExportName && IsTxt(f.name) && l in Lines(f.content)
    ensures
      var text := Content(ExportAll(fs), ExportName);
      NoteFile(ExportName, text) in ExportAll(fs) && Terminate(l) in Lines(text)
  {
    ExportAllShows(fs, f);
  }

  lemma {:induction false} ExportedLineHit(fs: Folder, f: NoteFile, l: string, keyword: string)
    requires f in fs && f.name != ExportName && IsTxt(f.name)
    requires l in Lines(f.content) && keyword != [] && Contains(Lower(l), Lower(keyword))
    ensures LineHit(ExportAll(fs), keyword, NoteFile(ExportName, Content(ExportAll(fs), ExportName)), Terminate(l))
  {
    ExportHoldsLine(fs, f, l);
    TerminateKeepsMatch(l, keyword);
    ExportNameIsTxt();
  }

  /** After an export, a search reports each matching note line twice: from
      its own file and from `all_notes.txt`. */
  lemma {:induction false} ExportFeedsSearch(fs: Folder, f: NoteFile, l: string, keyword: string)
    requires f in fs && f.name != ExportName && IsTxt(f.name)
    requires l in Lines(f.content) && keyword != [] && Contains(Lower(l), Lower(keyword))
    ensures
      var hits := Search(ExportAll(fs), Some(keyword)).value;
      Match(f.name, Strip(l, IsSpace)) in hits && Match(ExportName, Strip(l, IsSpace)) in hits
  {
    var r := ExportAll(fs);
    ExportKeepsFile(fs, f);
    assert LineHit(r, keyword, f, l);
    SourceIsSearchHit(r, keyword, f, l);
    ExportedLineHit(fs, f, l, keyword);
    SourceIsSearchHit(r, keyword, NoteFile(ExportName, Content(r, ExportName)), Terminate(l));
    TerminateKeepsMatch(l, keyword);
  }

  /** The first export at least doubles the line total the statistics report:
      every note line is counted again inside `all_notes.txt`. */
  lemma {:induction false} FirstExportDoublesTotal(fs: Folder)
    requires ExportName !in Names(fs)
    ensures FlatStats(ExportAll(fs)).total >= 2 * FlatStats(fs).total
  {
    var emptied := Opened(fs);
    var text := Export(FlatShelf(emptied), Flat);
    LookupFound(fs, ExportName);
    ExportNameIsTxt();
    FolderTotalPut(fs, ExportName, []);
    FolderTotalPut(emptied, ExportName, text);
    ExportShows(FlatShelf(emptied), Flat, Directory(NotesDir, emptied), NoteFile(ExportName, []));
    assert ShelfTotal(FlatShelf(emptied)) == FolderTotal(emptied);
  }
}
