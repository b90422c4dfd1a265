/** The categorised application (`smart_notebook.py`): notes live in one
    directory per category, `notes/<category>/<date>_notes.txt`, and every
    dialog is a function of the directory contents and the user's answers. */
module Notebook {
  import opened Results
  import opened Text
  import opened LineFiles
  import opened Corpus
  import opened Scanning
  import opened Exporting
  import opened WordStats

  // ---------------------------------------------------------------------
  // Categories and paths

  datatype Category = School | Personal | Ideas | Journal

  /** The category list, in the order every scan visits it. */
  const Categories: seq<Category> := [School, Personal, Ideas, Journal]

  function CategoryName(c: Category): string {
    match c
    case School => "school"
    case Personal => "personal"
    case Ideas => "ideas"
    case Journal => "journal"
  }

  /** `answer in categories`, as a category. */
  function ParseCategory(answer: Option<string>): (r: Option<Category>)
    ensures r.Some? ==> answer == Some(CategoryName(r.value))
    ensures r.None? ==> forall c :: answer != Some(CategoryName(c))
  {
    if answer == Some("school") then Some(School)
    else if answer == Some("personal") then Some(Personal)
    else if answer == Some("ideas") then Some(Ideas)
    else if answer == Some("journal") then Some(Journal)
    else None
  }

  /** The category an added note is filed under, and whether the answer was
      rejected (the application then warns and files it as personal). */
  datatype Resolved = Resolved(category: Category, fellBack: bool)

  function ResolveCategory(answer: Option<string>): (r: Resolved)
    ensures r.fellBack <==> forall c :: answer != Some(CategoryName(c))
    ensures r.fellBack ==> r.category == Personal
    ensures !r.fellBack ==> answer == Some(CategoryName(r.category))
  {
    match ParseCategory(answer)
    case Some(c) => Resolved(c, false)
    case None => Resolved(Personal, true)
  }

  /** A valid answer resolves to its own category. */
  lemma {:induction false} ResolveValid(answer: string)
    requires ParseCategory(Some(answer)).Some?
    ensures ResolveCategory(Some(answer)) == Resolved(ParseCategory(Some(answer)).value, false)
  {
  }

  function NotePath(c: Category, date: string): string {
    "notes/" + CategoryName(c) + "/" + NoteFileName(date)
  }

  /** The first '/' after "notes/" closes the category name. */
  lemma {:induction false} NotePathSlash(c: Category, date: string)
    ensures NotePath(c, date)[6 + |CategoryName(c)|] == '/'
    ensures forall k :: 6 <= k < 6 + |CategoryName(c)| ==> NotePath(c, date)[k] != '/'
  {
    var p := NotePath(c, date);
    var n := CategoryName(c);
    assert p == "notes/" + n + "/" + NoteFileName(date);
    forall k | 6 <= k < 6 + |n| ensures p[k] != '/' {
      assert p[k] == n[k - 6];
    }
  }

  /** Different (category, date) pairs never share a note file. */
  lemma {:induction false} NotePathInjective(c1: Category, d1: string, c2: Category, d2: string)
    requires NotePath(c1, d1) == NotePath(c2, d2)
    ensures c1 == c2 && d1 == d2
  {
    NotePathSlash(c1, d1);
    NotePathSlash(c2, d2);
    var n1, n2 := CategoryName(c1), CategoryName(c2);
    assert |n1| == |n2|;
    assert c1 == c2;
    var prefix := "notes/" + n1 + "/";
    assert NotePath(c1, d1) == prefix + d1 + "_notes.txt";
    assert NotePath(c2, d2) == prefix + d2 + "_notes.txt";
    assert d1 == NotePath(c1, d1)[|prefix|..|prefix| + |d1|];
  }

  // ---------------------------------------------------------------------
  // The store: one listing per category

  datatype Store = Store(school: Folder, personal: Folder, ideas: Folder, journal: Folder)

  function Listing(s: Store, c: Category): Folder {
    match c
    case School => s.school
    case Personal => s.personal
    case Ideas => s.ideas
    case Journal => s.journal
  }

  function WithListing(s: Store, c: Category, fs: Folder): (r: Store)
    ensures Listing(r, c) == fs
    ensures forall d :: d != c ==> Listing(r, d) == Listing(s, d)
  {
    match c
    case School => s.(school := fs)
    case Personal => s.(personal := fs)
    case Ideas => s.(ideas := fs)
    case Journal => s.(journal := fs)
  }

  /** The directories in the order the category list visits them. */
  function StoreShelf(s: Store): Shelf {
    [ Directory(CategoryName(School), s.school), Directory(CategoryName(Personal), s.personal),
      Directory(CategoryName(Ideas), s.ideas), Directory(CategoryName(Journal), s.journal) ]
  }

  /** Every file but `name` in category `c` reads as before. */
  ghost predicate OthersUnchanged(before: Store, after: Store, c: Category, name: string) {
    forall d, n :: (d != c || n != name) ==> Lookup(Listing(after, d), n) == Lookup(Listing(before, d), n)
  }

  /** Rewriting one file. */
  function Rewrite(s: Store, c: Category, name: string, content: string): (r: Store)
    ensures Lookup(Listing(r, c), name) == Some(content)
    ensures OthersUnchanged(s, r, c, name)
  {
    WithListing(s, c, Put(Listing(s, c), name, content))
  }

  // ---------------------------------------------------------------------
  // Add Note

  function Stamped(time: string, note: string): string {
    "[" + time + "] " + note
  }

  lemma {:induction false} StampedNoNewline(time: string, note: string)
    requires NoNewline(time) && NoNewline(note)
    ensures NoNewline(Stamped(time, note))
  {
    assert Stamped(time, note) == ("[" + time) + ("] " + note);
    NoNewlineAppend("[", time);
    NoNewlineAppend("] ", note);
    NoNewlineAppend("[" + time, "] " + note);
  }

  datatype Saved = Saved(store: Store, path: string, fellBack: bool)

  /** The Add Note dialog: a blank answer writes nothing; otherwise the line
      `[HH:MM] note` is appended to today's file of the resolved category. */
  function AddNote(s: Store, note: Option<string>, time: string, category: Option<string>, today: string): (r: Option<Saved>)
    ensures r.None? <==> Blank(note)
    ensures r.Some? ==>
      var c := ResolveCategory(category).category;
      var name := NoteFileName(today);
      && r.value.path == NotePath(c, today)
      && r.value.fellBack == ResolveCategory(category).fellBack
      && Lookup(Listing(r.value.store, c), name)
         == Some(Content(Listing(s, c), name) + Stamped(time, note.value) + "\n")
      && OthersUnchanged(s, r.value.store, c, name)
  {
    if Blank(note) then
      None
    else
      var resolved := ResolveCategory(category);
      var c := resolved.category;
      var name := NoteFileName(today);
      var text := Stamped(time, note.value) + "\n";
      assert Content(Listing(s, c), name) + text == Content(Listing(s, c), name) + Stamped(time, note.value) + "\n";
      Some(Saved(Rewrite(s, c, name, Content(Listing(s, c), name) + text), NotePath(c, today), resolved.fellBack))
  }

  /** On a file that ends at a line boundary, adding a one-line note adds
      exactly one line at the end and keeps every earlier line. */
  lemma {:induction false} AddNoteAppendsLine(s: Store, note: string, time: string, category: Option<string>, today: string)
    requires note != [] && NoNewline(note) && NoNewline(time)
    requires Terminated(Content(Listing(s, ResolveCategory(category).category), NoteFileName(today)))
    ensures
      var c := ResolveCategory(category).category;
      var name := NoteFileName(today);
      var after := AddNote(s, Some(note), time, category, today).value.store;
      Lines(Content(Listing(after, c), name))
        == Lines(Content(Listing(s, c), name)) + [Stamped(time, note) + "\n"]
  {
    var c := ResolveCategory(category).category;
    var name := NoteFileName(today);
    var before := Content(Listing(s, c), name);
    var line := Stamped(time, note);
    StampedNoNewline(time, note);
    LinesAppend(before, line + "\n");
    OneLine(line);
    assert before + Stamped(time, note) + "\n" == before + (line + "\n");
  }

  // ---------------------------------------------------------------------
  // Edit Notes and Delete Note: choosing a file

  datatype ChangeError = InvalidCategory | NoNoteFiles | InvalidFile | InvalidLineNumber

  /** The `.txt` names of a listing, in listing order. */
  function TxtNames(fs: Folder): (ns: seq<string>)
    ensures forall n :: n in ns <==> n in Names(fs) && IsTxt(n)
  {
    if fs == [] then []
    else
      assert Names(fs) == [fs[0].name] + Names(fs[1..]);
      (if IsTxt(fs[0].name) then [fs[0].name] else []) + TxtNames(fs[1..])
  }

  /** A chosen file: its category, its name, and its text when opened. */
  datatype Target = Target(category: Category, file: string, content: string)

  /** The dialogs both Edit Notes and Delete Note open with: a category from
      the list, a non-empty list of its `.txt` files, and one of them. */
  function ChooseFile(s: Store, category: Option<string>, choice: Option<string>): (r: Result<Target, ChangeError>)
    ensures r == Err(InvalidCategory) <==> ParseCategory(category).None?
    ensures r == Err(NoNoteFiles) <==> ParseCategory(category).Some? && TxtNames(Listing(s, ParseCategory(category).value)) == []
    ensures r == Err(InvalidFile) <==>
              && ParseCategory(category).Some?
              && TxtNames(Listing(s, ParseCategory(category).value)) != []
              && (choice.None? || choice.value !in TxtNames(Listing(s, ParseCategory(category).value)))
    ensures r.Ok? <==> ParseCategory(category).Some? && choice.Some?
                       && choice.value in TxtNames(Listing(s, ParseCategory(category).value))
    ensures r.Ok? ==> r.value.category == ParseCategory(category).value && Some(r.value.file) == choice
                      && IsTxt(r.value.file) && Lookup(Listing(s, r.value.category), r.value.file) == Some(r.value.content)
  {
    match ParseCategory(category)
    case None => Err(InvalidCategory)
    case Some(c) =>
      var files := TxtNames(Listing(s, c));
      if files == [] then Err(NoNoteFiles)
      else if choice.None? || choice.value !in files then Err(InvalidFile)
      else
        LookupFound(Listing(s, c), choice.value);
        Ok(Target(c, choice.value, Lookup(Listing(s, c), choice.value).value))
  }

  /** Save Changes in the editor: the file is overwritten with the editor's
      text stripped of surrounding whitespace. */
  function EditNotes(s: Store, category: Option<string>, choice: Option<string>, edited: string): (r: Result<Store, ChangeError>)
    ensures r.Ok? <==> ChooseFile(s, category, choice).Ok?
    ensures r.Err? ==> r.error == ChooseFile(s, category, choice).error
    ensures r.Ok? ==>
      var t := ChooseFile(s, category, choice).value;
      && Lookup(Listing(r.value, t.category), t.file) == Some(Strip(edited, IsSpace))
      && OthersUnchanged(s, r.value, t.category, t.file)
  {
    var t :- ChooseFile(s, category, choice);
    Ok(Rewrite(s, t.category, t.file, Strip(edited, IsSpace)))
  }

  /** Opening the saved file again shows its stripped text; saving that
      unchanged (the editor hands back one more line feed) writes the same
      text, so a second save of an untouched editor changes no file. */
  lemma {:induction false} ResaveUnchanged(s: Store, category: Option<string>, choice: Option<string>, edited: string)
    requires EditNotes(s, category, choice, edited).Ok?
    ensures
      var saved := EditNotes(s, category, choice, edited).value;
      var reopened := ChooseFile(saved, category, choice);
      && reopened.Ok?
      && reopened.value.content == Strip(edited, IsSpace)
      && var again := EditNotes(saved, category, choice, reopened.value.content + "\n");
         && again.Ok?
         && forall d, n :: Lookup(Listing(again.value, d), n) == Lookup(Listing(saved, d), n)
  {
    var t := ChooseFile(s, category, choice).value;
    var text := Strip(edited, IsSpace);
    var saved := EditNotes(s, category, choice, edited).value;
    ReopenAfterSave(s, category, choice, edited);
    StripDropLast(text, '\n', IsSpace);
    StripIdempotent(edited, IsSpace);
    var again := EditNotes(saved, category, choice, text + "\n");
    assert again.Ok?;
    assert Lookup(Listing(again.value, t.category), t.file) == Some(text);
  }

  /** The file chosen for a save can be chosen again afterwards, and then
      shows the saved text. */
  lemma {:induction false} ReopenAfterSave(s: Store, category: Option<string>, choice: Option<string>, edited: string)
    requires EditNotes(s, category, choice, edited).Ok?
    ensures
      var t := ChooseFile(s, category, choice).value;
      ChooseFile(EditNotes(s, category, choice, edited).value, category, choice)
        == Ok(Target(t.category, t.file, Strip(edited, IsSpace)))
  {
    var t := ChooseFile(s, category, choice).value;
    var text := Strip(edited, IsSpace);
    var saved := EditNotes(s, category, choice, edited).value;
    assert saved == Rewrite(s, t.category, t.file, text);
    var before, after := Listing(s, t.category), Listing(saved, t.category);
    assert after == Put(before, t.file, text);
    LookupFound(before, t.file);
    PutNames(before, t.file, text);
    assert t.file in TxtNames(after);
  }

  /** Delete Note: line `lineNum` (1-based) of the chosen file is removed;
      a missing, zero, negative or too large number is refused. */
  function DeleteNote(s: Store, category: Option<string>, choice: Option<string>, lineNum: Option<int>): (r: Result<Store, ChangeError>)
  {
    var t :- ChooseFile(s, category, choice);
    var lines := Lines(t.content);
    if lineNum.None? || lineNum.value == 0 || lineNum.value < 1 || lineNum.value > |lines| then
      Err(InvalidLineNumber)
    else
      Ok(Rewrite(s, t.category, t.file, Join(RemoveAt(lines, lineNum.value - 1))))
  }

  /** A delete succeeds exactly for a chosen file and a line number in
      1..len(lines); the file then reads as its old lines minus that one,
      the others in their old order, and nothing else changes. A refused
      delete returns an error and no new store, so the file stays as it was. */
  lemma {:induction false} DeleteNoteSpec(s: Store, category: Option<string>, choice: Option<string>, lineNum: Option<int>)
    ensures
      var r := DeleteNote(s, category, choice, lineNum);
      var chosen := ChooseFile(s, category, choice);
      && (chosen.Err? ==> r == Err(chosen.error))
      && (chosen.Ok? ==>
            var t := chosen.value;
            var lines := Lines(t.content);
            && (r.Ok? <==> lineNum.Some? && 1 <= lineNum.value <= |lines|)
            && (r.Err? ==> r.error == InvalidLineNumber)
            && (r.Ok? ==>
                  var after := Lines(Content(Listing(r.value, t.category), t.file));
                  && after == RemoveAt(lines, lineNum.value - 1)
                  && |after| == |lines| - 1
                  && OthersUnchanged(s, r.value, t.category, t.file)))
  {
    var chosen := ChooseFile(s, category, choice);
    var r := DeleteNote(s, category, choice, lineNum);
    if chosen.Err? {
      assert r == Err(chosen.error);
    } else {
      var t := chosen.value;
      var lines := Lines(t.content);
      if lineNum.Some? && 1 <= lineNum.value <= |lines| {
        var kept := RemoveAt(lines, lineNum.value - 1);
        assert r == Ok(Rewrite(s, t.category, t.file, Join(kept)));
        LinesWellFormed(t.content);
        RemoveAtWellFormed(lines, lineNum.value - 1);
        LinesJoin(kept);
      } else {
        assert r == Err(InvalidLineNumber);
      }
    }
  }

  // ---------------------------------------------------------------------
  // Search Notes and Today's Notes

  /** The search dialog: nothing happens for a blank keyword; otherwise the
      matching lines, each tagged with its category and file. */
  function SearchNotes(s: Store, keyword: Option<string>, dateFilter: Option<string>): (r: Option<seq<Entry>>)
    ensures r.None? <==> Blank(keyword)
  {
    if Blank(keyword) then None
    else Some(Scan(StoreShelf(s), Keyword(keyword.value, dateFilter.GetOr([]))))
  }

  /** `cat/file: line`, the way results are shown; empty exactly when there
      are no hits (the "No Results" case). */
  function Render(es: seq<Entry>): (r: string)
    ensures r == [] <==> es == []
  {
    if es == [] then [] else es[0].dir + "/" + es[0].file + ": " + es[0].text + Render(es[1..])
  }

  /** One hit is shown as `cat/file: line`; the line keeps its own line feed. */
  lemma {:induction false} RenderOne(e: Entry)
    ensures Render([e]) == e.dir + "/" + e.file + ": " + e.text
  {
  }

  /** The results text is built hit by hit, so the text of two runs of
      hits is the text of the first followed by the text of the second. */
  lemma {:induction false} RenderAppend(a: seq<Entry>, b: seq<Entry>)
    ensures Render(a + b) == Render(a) + Render(b)
    decreases |a|
  {
    if a == [] {
      assert a + b == b;
    } else {
      assert (a + b)[0] == a[0];
      assert (a + b)[1..] == a[1..] + b;
      RenderAppend(a[1..], b);
    }
  }

  /** `e` is a line of a file listed in a category. */
  ghost predicate InStore(s: Store, e: Entry) {
    exists c, f :: f in Listing(s, c) && e.dir == CategoryName(c) && e.file == f.name && e.text in Lines(f.content)
  }

  /** The directory a category's listing is scanned as. */
  function CategoryDirectory(s: Store, c: Category): Directory {
    Directory(CategoryName(c), Listing(s, c))
  }

  lemma {:induction false} StoreShelfMembers(s: Store, d: Directory)
    ensures d in StoreShelf(s) <==> exists c :: d == CategoryDirectory(s, c)
  {
    var shelf := StoreShelf(s);
    assert shelf == [CategoryDirectory(s, School), CategoryDirectory(s, Personal),
                     CategoryDirectory(s, Ideas), CategoryDirectory(s, Journal)];
    if exists c :: d == CategoryDirectory(s, c) {
      var c :| d == CategoryDirectory(s, c);
      match c
      case School => assert d == shelf[0];
      case Personal => assert d == shelf[1];
      case Ideas => assert d == shelf[2];
      case Journal => assert d == shelf[3];
    }
  }

  lemma {:induction false} StoreHolds(s: Store, e: Entry)
    ensures Holds(StoreShelf(s), e) <==> InStore(s, e)
  {
    var shelf := StoreShelf(s);
    if Holds(shelf, e) {
      var d, f :| d in shelf && f in d.files && d.name == e.dir && f.name == e.file && e.text in Lines(f.content);
      StoreShelfMembers(s, d);
      var c :| d == CategoryDirectory(s, c);
      assert f in Listing(s, c);
    }
    if InStore(s, e) {
      var c, f :| f in Listing(s, c) && e.dir == CategoryName(c) && e.file == f.name && e.text in Lines(f.content);
      var d := CategoryDirectory(s, c);
      StoreShelfMembers(s, d);
      assert d in shelf && f in d.files;
    }
  }

  /** A search hit is exactly a line of a `.txt` file (whose name contains
      the date filter, when one is given) that contains the keyword,
      ignoring case. */
  lemma {:induction false} SearchExact(s: Store, keyword: string, dateFilter: Option<string>, e: Entry)
    requires keyword != []
    ensures
      var hits := SearchNotes(s, Some(keyword), dateFilter).value;
      e in hits <==>
        && InStore(s, e)
        && IsTxt(e.file)
        && (Blank(dateFilter) || Contains(e.file, dateFilter.value))
        && Contains(Lower(e.text), Lower(keyword))
  {
    ScanMembership(StoreShelf(s), Keyword(keyword, dateFilter.GetOr([])), e);
    StoreHolds(s, e);
  }

  /** Hits come in category-list order, then listing order, then line
      order: they are the matching lines of the whole corpus, in order. */
  lemma {:induction false} SearchOrder(s: Store, keyword: string, dateFilter: Option<string>)
    requires keyword != []
    ensures SearchNotes(s, Some(keyword), dateFilter).value
         == Filter(Keyword(keyword, dateFilter.GetOr([])), Entries(StoreShelf(s)))
  {
    ScanIsFilter(StoreShelf(s), Keyword(keyword, dateFilter.GetOr([])));
  }

  /** Today's Notes: every line of every file named `..<today>_notes.txt`. */
  function TodayNotes(s: Store, today: string): seq<Entry> {
    Scan(StoreShelf(s), Day(today))
  }

  /** The day view holds exactly all lines of the files whose name ends
      with `<today>_notes.txt`, in every category, in corpus order. */
  lemma {:induction false} TodayExact(s: Store, today: string, e: Entry)
    ensures e in TodayNotes(s, today) <==> InStore(s, e) && EndsWith(e.file, NoteFileName(today))
    ensures TodayNotes(s, today) == Filter(Day(today), Entries(StoreShelf(s)))
  {
    ScanMembership(StoreShelf(s), Day(today), e);
    ScanIsFilter(StoreShelf(s), Day(today));
    StoreHolds(s, e);
  }

  // ---------------------------------------------------------------------
  // Notebook Stats and Export

  const NoWord: string := "N/A"

  /** Notebook Stats: total lines of all `.txt` files, and the most used
      punctuation-stripped, lower-cased word, or "N/A" when there is none. */
  function NotebookStats(s: Store): (r: Stats)
    ensures r.total == ShelfTotal(StoreShelf(s))
    ensures r.mostUsed == NoWord <==> ShelfWords(StoreShelf(s), StripPunctuation) == []
    ensures r.mostUsed != NoWord ==>
      var m := CountWords(ShelfWords(StoreShelf(s), StripPunctuation));
      && IsCountedWord(StripPunctuation, r.mostUsed)
      && r.mostUsed in m && forall v :: v in m ==> m[v] <= m[r.mostUsed]
  {
    assert Lower(NoWord)[0] == 'n';
    ShelfStats(StoreShelf(s), StripPunctuation, NoWord)
  }

  /** Export All Notes: nothing when the save dialog is cancelled, otherwise
      every `.txt` file behind a `--- category/file ---` header. */
  function ExportAll(s: Store, exportPath: Option<string>): (r: Option<string>)
    ensures r.None? <==> Blank(exportPath)
  {
    if Blank(exportPath) then None else Some(Export(StoreShelf(s), Categorised))
  }

  /** Every `.txt` note file shows in the export: its header line and each of
      its lines; and the export has at least a header line per file on top of
      all their lines. */
  lemma {:induction false} ExportAllShows(s: Store, exportPath: string, c: Category, f: NoteFile)
    requires exportPath != []
    ensures
      var text := ExportAll(s, Some(exportPath)).value;
      && Lines(text) == SectionsLines(Categorised, TxtFiles(StoreShelf(s)))
      && |Lines(text)| >= ShelfTotal(StoreShelf(s)) + TxtCount(StoreShelf(s))
      && (f in Listing(s, c) && IsTxt(f.name) ==> Shows(Categorised, CategoryName(c), f, text))
  {
    ExportLines(StoreShelf(s), Categorised);
    var d := CategoryDirectory(s, c);
    StoreShelfMembers(s, d);
    ExportShows(StoreShelf(s), Categorised, d, f);
  }

  // ---------------------------------------------------------------------
  // Files that end at a line boundary

  /** Every note file ends with a line feed (or is empty). */
  ghost predicate AllTerminated(s: Store) {
    forall c, f :: f in Listing(s, c) ==> Terminated(f.content)
  }

  lemma {:induction false} RewriteKeepsTerminated(s: Store, c: Category, name: string, content: string)
    requires AllTerminated(s) && Terminated(content)
    ensures AllTerminated(Rewrite(s, c, name, content))
  {
    var r := Rewrite(s, c, name, content);
    forall d, f | f in Listing(r, d) ensures Terminated(f.content) {
      if d == c {
        PutMembers(Listing(s, c), name, content, f);
      }
    }
  }

  /** Adding a note keeps every file ending at a line boundary. */
  lemma {:induction false} AddNoteKeepsTerminated(s: Store, note: Option<string>, time: string, category: Option<string>, today: string)
    requires AllTerminated(s)
    ensures
      var r := AddNote(s, note, time, category, today);
      r.Some? ==> AllTerminated(r.value.store)
  {
    if !Blank(note) {
      var c := ResolveCategory(category).category;
      var name := NoteFileName(today);
      RewriteKeepsTerminated(s, c, name, Content(Listing(s, c), name) + Stamped(time, note.value) + "\n");
    }
  }

  /** Deleting a line keeps every file ending at a line boundary. */
  lemma {:induction false} DeleteNoteKeepsTerminated(s: Store, category: Option<string>, choice: Option<string>, lineNum: Option<int>)
    requires AllTerminated(s)
    ensures
      var r := DeleteNote(s, category, choice, lineNum);
      r.Ok? ==> AllTerminated(r.value)
  {
    var chosen := ChooseFile(s, category, choice);
    if chosen.Ok? {
      var t := chosen.value;
      var lines := Lines(t.content);
      if lineNum.Some? && 1 <= lineNum.value <= |lines| {
        LookupFound(Listing(s, t.category), t.file);
        assert Terminated(t.content);
        TerminatedLines(t.content);
        var rest := RemoveAt(lines, lineNum.value - 1);
        forall i | 0 <= i < |rest| ensures Terminated(rest[i]) {
          if i >= lineNum.value - 1 {
            assert rest[i] == lines[i + 1];
          }
        }
        JoinTerminated(rest);
        RewriteKeepsTerminated(s, t.category, t.file, Join(rest));
      }
    }
  }

  /** As written, saving an edit drops the file's final line feed, so the
      next note added to that file is glued onto its last line: the file
      gains no line. (Editing "[09:00] a\n" and saving, then adding "b" at
      09:05, leaves the single line "[09:00] a[09:05] b\n".) */
  lemma {:induction false} EditThenAddJoinsLines(s: Store, category: string, today: string, edited: string,
                              note: string, time: string)
    requires ChooseFile(s, Some(category), Some(NoteFileName(today))).Ok?
    requires Strip(edited, IsSpace) != []
    requires note != [] && NoNewline(note) && NoNewline(time)
    ensures
      var c := ParseCategory(Some(category)).value;
      var name := NoteFileName(today);
      var edit := EditNotes(s, Some(category), Some(name), edited).value;
      var add := AddNote(edit, Some(note), time, Some(category), today).value.store;
      |Lines(Content(Listing(add, c), name))| == |Lines(Content(Listing(edit, c), name))|
  {
    var c := ParseCategory(Some(category)).value;
    var name := NoteFileName(today);
    var edit := EditNotes(s, Some(category), Some(name), edited).value;
    var x := Strip(edited, IsSpace);
    assert Content(Listing(edit, c), name) == x;
    StrippedNotTerminated(edited);
    ResolveValid(category);
    var line := Stamped(time, note);
    StampedNoNewline(time, note);
    var add := AddNote(edit, Some(note), time, Some(category), today).value.store;
    assert Content(Listing(add, c), name) == x + line + "\n";
    GluedOnto(x, line);
  }

  /** The edit as evidently intended: the stripped text is saved as whole
      lines, ending with a line feed unless it is empty. */
  function EditNotesKeepingLines(s: Store, category: Option<string>, choice: Option<string>, edited: string): (r: Result<Store, ChangeError>)
    ensures r.Ok? <==> ChooseFile(s, category, choice).Ok?
    ensures r.Ok? ==>
      var t := ChooseFile(s, category, choice).value;
      var x := Strip(edited, IsSpace);
      && Lookup(Listing(r.value, t.category), t.file) == Some(if x == [] then [] else x + "\n")
      && OthersUnchanged(s, r.value, t.category, t.file)
  {
    var t :- ChooseFile(s, category, choice);
    var x := Strip(edited, IsSpace);
    Ok(Rewrite(s, t.category, t.file, if x == [] then [] else x + "\n"))
  }

  /** With the intended edit, files keep ending at a line boundary, so the
      next note added after an edit is exactly one new line. */
  lemma {:induction false} EditKeepingLinesThenAdd(s: Store, category: string, today: string, edited: string,
                                note: string, time: string)
    requires AllTerminated(s)
    requires ChooseFile(s, Some(category), Some(NoteFileName(today))).Ok?
    requires note != [] && NoNewline(note) && NoNewline(time)
    ensures
      var c := ParseCategory(Some(category)).value;
      var name := NoteFileName(today);
      var edit := EditNotesKeepingLines(s, Some(category), Some(name), edited).value;
      var add := AddNote(edit, Some(note), time, Some(category), today).value.store;
      && AllTerminated(edit)
      && Lines(Content(Listing(add, c), name)) == Lines(Content(Listing(edit, c), name)) + [Stamped(time, note) + "\n"]
  {
    var c := ParseCategory(Some(category)).value;
    var name := NoteFileName(today);
    var x := Strip(edited, IsSpace);
    var written := if x == [] then [] else x + "\n";
    RewriteKeepsTerminated(s, c, name, written);
    var edit := EditNotesKeepingLines(s, Some(category), Some(name), edited).value;
    assert Content(Listing(edit, c), name) == written;
    ResolveValid(category);
    AddNoteAppendsLine(edit, note, time, Some(category), today);
  }
}
