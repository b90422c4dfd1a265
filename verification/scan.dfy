/** The read-only scans over every note file: keyword search, the day view
    and the line count of the statistics all walk directories, then files
    in listing order, then lines, keeping what a `Query` selects. */
module Scanning {
  import opened Text
  import opened LineFiles
  import opened Corpus

  /** What a scan keeps. `Keyword` is the search dialog (an empty
      `dateFilter` means no filter), `Day` the day view, `Every` every line
      of every `.txt` file (statistics). */
  datatype Query = Keyword(word: string, dateFilter: string) | Day(date: string) | Every

  predicate IsTxt(name: string) {
    EndsWith(name, ".txt")
  }

  /** The file-name test a scan applies before opening a file. */
  predicate FileKept(q: Query, name: string) {
    match q
    case Keyword(_, filter) => IsTxt(name) && (filter == [] || Contains(name, filter))
    case Day(date) => EndsWith(name, NoteFileName(date))
    case Every => IsTxt(name)
  }

  /** The line test: a case-insensitive substring match for a keyword. */
  predicate LineKept(q: Query, text: string) {
    match q
    case Keyword(word, _) => Contains(Lower(text), Lower(word))
    case _ => true
  }

  predicate Selects(q: Query, e: Entry) {
    FileKept(q, e.file) && LineKept(q, e.text)
  }

  // ---------------------------------------------------------------------
  // The scan, shaped like the loops that perform it

  function ScanLines(dir: string, file: string, ls: seq<string>, q: Query): seq<Entry> {
    if ls == [] then []
    else (if LineKept(q, ls[0]) then [Entry(dir, file, ls[0])] else []) + ScanLines(dir, file, ls[1..], q)
  }

  function ScanFolder(dir: string, fs: Folder, q: Query): seq<Entry> {
    if fs == [] then []
    else
      (if FileKept(q, fs[0].name) then ScanLines(dir, fs[0].name, Lines(fs[0].content), q) else [])
      + ScanFolder(dir, fs[1..], q)
  }

  function Scan(shelf: Shelf, q: Query): seq<Entry> {
    if shelf == [] then [] else ScanFolder(shelf[0].name, shelf[0].files, q) + Scan(shelf[1..], q)
  }

  // ---------------------------------------------------------------------
  // The reference view: every line of the corpus, and a filter over it

  function FileEntries(dir: string, file: string, ls: seq<string>): (es: seq<Entry>)
    ensures |es| == |ls|
    ensures forall i :: 0 <= i < |ls| ==> es[i] == Entry(dir, file, ls[i])
  {
    if ls == [] then [] else [Entry(dir, file, ls[0])] + FileEntries(dir, file, ls[1..])
  }

  function FolderEntries(dir: string, fs: Folder): seq<Entry> {
    if fs == [] then [] else FileEntries(dir, fs[0].name, Lines(fs[0].content)) + FolderEntries(dir, fs[1..])
  }

  /** Every line of every file: directory order, then listing order, then
      line order. */
  function Entries(shelf: Shelf): seq<Entry> {
    if shelf == [] then [] else FolderEntries(shelf[0].name, shelf[0].files) + Entries(shelf[1..])
  }

  function Filter(q: Query, es: seq<Entry>): seq<Entry> {
    if es == [] then [] else (if Selects(q, es[0]) then [es[0]] else []) + Filter(q, es[1..])
  }

  lemma {:induction false} FilterAppend(q: Query, a: seq<Entry>, b: seq<Entry>)
    ensures Filter(q, a + b) == Filter(q, a) + Filter(q, b)
  {
    if a == [] {
      assert a + b == b;
    } else {
      var head := if Selects(q, a[0]) then [a[0]] else [];
      assert (a + b)[0] == a[0];
      assert (a + b)[1..] == a[1..] + b;
      calc {
        Filter(q, a + b);
        head + Filter(q, a[1..] + b);
        { FilterAppend(q, a[1..], b); }
        head + (Filter(q, a[1..]) + Filter(q, b));
      }
    }
  }

  /** A filter keeps exactly the selected entries. */
  lemma {:induction false} FilterMembership(q: Query, es: seq<Entry>, e: Entry)
    ensures e in Filter(q, es) <==> e in es && Selects(q, e)
  {
    if es != [] {
      FilterMembership(q, es[1..], e);
      assert es == [es[0]] + es[1..];
    }
  }

  lemma {:induction false} ScanLinesIsFilter(dir: string, file: string, ls: seq<string>, q: Query)
    ensures Filter(q, FileEntries(dir, file, ls))
         == if FileKept(q, file) then ScanLines(dir, file, ls, q) else []
  {
    if ls != [] {
      ScanLinesIsFilter(dir, file, ls[1..], q);
      assert FileEntries(dir, file, ls)[1..] == FileEntries(dir, file, ls[1..]);
    }
  }

  lemma {:induction false} ScanFolderIsFilter(dir: string, fs: Folder, q: Query)
    ensures ScanFolder(dir, fs, q) == Filter(q, FolderEntries(dir, fs))
  {
    if fs != [] {
      FilterAppend(q, FileEntries(dir, fs[0].name, Lines(fs[0].content)), FolderEntries(dir, fs[1..]));
      ScanLinesIsFilter(dir, fs[0].name, Lines(fs[0].content), q);
      ScanFolderIsFilter(dir, fs[1..], q);
    }
  }

  /** The scan returns exactly the corpus lines the query selects, in
      corpus order: directory, then listing, then line. */
  lemma {:induction false} ScanIsFilter(shelf: Shelf, q: Query)
    ensures Scan(shelf, q) == Filter(q, Entries(shelf))
  {
    if shelf != [] {
      FilterAppend(q, FolderEntries(shelf[0].name, shelf[0].files), Entries(shelf[1..]));
      ScanFolderIsFilter(shelf[0].name, shelf[0].files, q);
      ScanIsFilter(shelf[1..], q);
    }
  }

  // ---------------------------------------------------------------------
  // Which entries the corpus holds

  /** `e` is a line of a file listed in a directory of the shelf. */
  ghost predicate Holds(shelf: Shelf, e: Entry) {
    exists d, f :: d in shelf && f in d.files && d.name == e.dir && f.name == e.file && e.text in Lines(f.content)
  }

  lemma {:induction false} FileEntriesMembership(dir: string, file: string, ls: seq<string>, e: Entry)
    ensures e in FileEntries(dir, file, ls) <==> e.dir == dir && e.file == file && e.text in ls
  {
    if e.dir == dir && e.file == file && e.text in ls {
      var i :| 0 <= i < |ls| && ls[i] == e.text;
      assert FileEntries(dir, file, ls)[i] == e;
    }
  }

  lemma {:induction false} FolderEntriesMembership(dir: string, fs: Folder, e: Entry)
    ensures e in FolderEntries(dir, fs)
        <==> e.dir == dir && exists f :: f in fs && f.name == e.file && e.text in Lines(f.content)
  {
    if fs != [] {
      FileEntriesMembership(dir, fs[0].name, Lines(fs[0].content), e);
      FolderEntriesMembership(dir, fs[1..], e);
      assert forall f :: f in fs <==> f == fs[0] || f in fs[1..] by {
        assert fs == [fs[0]] + fs[1..];
      }
    }
  }

  /** The corpus view lists exactly the lines the shelf holds. */
  lemma {:induction false} EntriesMembership(shelf: Shelf, e: Entry)
    ensures e in Entries(shelf) <==> Holds(shelf, e)
  {
    if shelf != [] {
      var d0 := shelf[0];
      FolderEntriesMembership(d0.name, d0.files, e);
      EntriesMembership(shelf[1..], e);
      assert forall d :: d in shelf <==> d == d0 || d in shelf[1..] by {
        assert shelf == [d0] + shelf[1..];
      }
      if Holds(shelf, e) {
        var d, f :| d in shelf && f in d.files && d.name == e.dir && f.name == e.file && e.text in Lines(f.content);
        if d != d0 {
          assert Holds(shelf[1..], e);
        }
      }
    }
  }

  /** A scan yields an entry iff it is a line the shelf holds and the query
      selects its file name and its text. */
  lemma {:induction false} ScanMembership(shelf: Shelf, q: Query, e: Entry)
    ensures e in Scan(shelf, q) <==> Holds(shelf, e) && FileKept(q, e.file) && LineKept(q, e.text)
  {
    ScanIsFilter(shelf, q);
    FilterMembership(q, Entries(shelf), e);
    EntriesMembership(shelf, e);
  }

  // ---------------------------------------------------------------------
  // Line totals

  /** The number of lines of the `.txt` files of a listing. */
  function FolderTotal(fs: Folder): nat {
    if fs == [] then 0
    else (if IsTxt(fs[0].name) then |Lines(fs[0].content)| else 0) + FolderTotal(fs[1..])
  }

  function ShelfTotal(shelf: Shelf): nat {
    if shelf == [] then 0 else FolderTotal(shelf[0].files) + ShelfTotal(shelf[1..])
  }

  lemma {:induction false} ScanLinesEveryCount(dir: string, file: string, ls: seq<string>)
    ensures |ScanLines(dir, file, ls, Every)| == |ls|
  {
    if ls != [] {
      ScanLinesEveryCount(dir, file, ls[1..]);
    }
  }

  lemma {:induction false} ScanFolderEveryCount(dir: string, fs: Folder)
    ensures |ScanFolder(dir, fs, Every)| == FolderTotal(fs)
  {
    if fs != [] {
      ScanLinesEveryCount(dir, fs[0].name, Lines(fs[0].content));
      ScanFolderEveryCount(dir, fs[1..]);
    }
  }

  /** Scanning every `.txt` line visits exactly as many lines as the
      `.txt` files hold. */
  lemma {:induction false} ScanEveryCount(shelf: Shelf)
    ensures |Scan(shelf, Every)| == ShelfTotal(shelf)
  {
    if shelf != [] {
      ScanFolderEveryCount(shelf[0].name, shelf[0].files);
      ScanEveryCount(shelf[1..]);
    }
  }

  /** Rewriting one `.txt` file changes the folder's total by the change in
      that file's line count. */
  lemma {:induction false} FolderTotalPut(fs: Folder, name: string, content: string)
    requires IsTxt(name)
    ensures FolderTotal(Put(fs, name, content)) + |Lines(Content(fs, name))|
         == FolderTotal(fs) + |Lines(content)|
  {
    if fs == [] {
    } else if fs[0].name == name {
      assert Put(fs, name, content)[1..] == fs[1..];
    } else {
      FolderTotalPut(fs[1..], name, content);
      assert Put(fs, name, content)[1..] == Put(fs[1..], name, content);
    }
  }
}
