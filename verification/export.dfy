/** Exporting: every `.txt` file's text behind a `--- <id> ---` header line,
    in scan order. The categorised application names a file `<category>/<file>`
    and ends each section with a blank line; the flat one names it by file
    alone and ends a section with a single line feed. */
module Exporting {
  import opened LineFiles
  import opened Corpus
  import opened Scanning

  datatype Layout = Categorised | Flat

  /** How a file is named in headers (and, categorised, in search results). */
  function SourceId(layout: Layout, dir: string, file: string): string {
    match layout
    case Categorised => dir + "/" + file
    case Flat => file
  }

  function Trailer(layout: Layout): string {
    match layout
    case Categorised => "\n\n"
    case Flat => "\n"
  }

  function Header(id: string): string {
    "--- " + id + " ---\n"
  }

  function Section(layout: Layout, dir: string, f: NoteFile): string {
    Header(SourceId(layout, dir, f.name)) + f.content + Trailer(layout)
  }

  function ExportFolder(layout: Layout, dir: string, fs: Folder): string {
    if fs == [] then []
    else (if IsTxt(fs[0].name) then Section(layout, dir, fs[0]) else []) + ExportFolder(layout, dir, fs[1..])
  }

  /** The whole export text. */
  function Export(shelf: Shelf, layout: Layout): string {
    if shelf == [] then [] else ExportFolder(layout, shelf[0].name, shelf[0].files) + Export(shelf[1..], layout)
  }

  /** The number of `.txt` files a scan visits. */
  function TxtCount(shelf: Shelf): nat {
    if shelf == [] then 0 else FolderTxtCount(shelf[0].files) + TxtCount(shelf[1..])
  }

  function FolderTxtCount(fs: Folder): nat {
    if fs == [] then 0 else (if IsTxt(fs[0].name) then 1 else 0) + FolderTxtCount(fs[1..])
  }

  /** The text `t` shows file `f` of directory `dir`: the header is one of
      its lines (when the name allows it to be one line) and every line of
      the file is one of its lines, terminated. */
  ghost predicate Shows(layout: Layout, dir: string, f: NoteFile, t: string) {
    && (forall l :: l in Lines(f.content) ==> Terminate(l) in Lines(t))
    && (NoNewline(SourceId(layout, dir, f.name)) ==> Header(SourceId(layout, dir, f.name)) in Lines(t))
  }

  lemma {:induction false} ShowsExtended(layout: Layout, dir: string, f: NoteFile, a: string, b: string)
    requires Terminated(a)
    ensures Shows(layout, dir, f, a) ==> Shows(layout, dir, f, a + b)
    ensures Shows(layout, dir, f, b) ==> Shows(layout, dir, f, a + b)
  {
    LinesAppend(a, b);
  }

  lemma {:induction false} MapTerminateHas(ls: seq<string>)
    ensures forall l :: l in ls ==> Terminate(l) in MapTerminate(ls)
  {
    forall l | l in ls ensures Terminate(l) in MapTerminate(ls) {
      var i :| 0 <= i < |ls| && ls[i] == l;
      assert MapTerminate(ls)[i] == Terminate(l);
    }
  }

  /** A file's text followed by one line feed still holds each of its lines,
      terminated. */
  lemma {:induction false} ContentWithNewline(c: string)
    ensures Terminated(c + "\n")
    ensures forall l :: l in Lines(c) ==> Terminate(l) in Lines(c + "\n")
    ensures |Lines(c + "\n")| >= |Lines(c)|
  {
    LinesWithNewline(c);
    MapTerminateHas(Lines(c));
  }

  lemma {:induction false} ContentWithTrailer(layout: Layout, c: string)
    ensures Terminated(c + Trailer(layout))
    ensures forall l :: l in Lines(c) ==> Terminate(l) in Lines(c + Trailer(layout))
    ensures |Lines(c + Trailer(layout))| >= |Lines(c)|
  {
    ContentWithNewline(c);
    if layout == Categorised {
      var c1 := c + "\n";
      assert c + Trailer(layout) == c1 + "\n";
      LinesAppend(c1, "\n");
      assert Lines(c1 + "\n") == Lines(c1) + Lines("\n");
    } else {
      assert c + Trailer(layout) == c + "\n";
    }
  }

  /** A header is terminated, and is a single line when the id has no line feed. */
  lemma {:induction false} HeaderLine(id: string)
    ensures Terminated(Header(id)) && |Lines(Header(id))| >= 1
    ensures NoNewline(id) ==> Lines(Header(id)) == [Header(id)]
  {
    var h := Header(id);
    LinesNonEmpty(h);
    if NoNewline(id) {
      var t := "--- " + id + " ---";
      assert h == t + "\n";
      assert NoNewline(t) by {
        forall k | 0 <= k < |t| ensures t[k] != '\n' {
          if 4 <= k < 4 + |id| {
            assert t[k] == id[k - 4];
          }
        }
      }
      OneLine(t);
    }
  }

  /** What a single section contributes. */
  lemma {:induction false} SectionShows(layout: Layout, dir: string, f: NoteFile)
    ensures Terminated(Section(layout, dir, f))
    ensures Shows(layout, dir, f, Section(layout, dir, f))
    ensures |Lines(Section(layout, dir, f))| >= 1 + |Lines(f.content)|
  {
    var id := SourceId(layout, dir, f.name);
    var h := Header(id);
    var body := f.content + Trailer(layout);
    assert Section(layout, dir, f) == h + body;
    ContentWithTrailer(layout, f.content);
    HeaderLine(id);
    LinesAppend(h, body);
    assert Lines(h + body) == Lines(h) + Lines(body);
  }

  lemma {:induction false} ExportFolderShows(layout: Layout, dir: string, fs: Folder, f: NoteFile)
    ensures Terminated(ExportFolder(layout, dir, fs))
    ensures f in fs && IsTxt(f.name) ==> Shows(layout, dir, f, ExportFolder(layout, dir, fs))
    ensures |Lines(ExportFolder(layout, dir, fs))| >= FolderTotal(fs) + FolderTxtCount(fs)
  {
    if fs != [] {
      var rest := ExportFolder(layout, dir, fs[1..]);
      ExportFolderShows(layout, dir, fs[1..], f);
      assert f in fs ==> f == fs[0] || f in fs[1..];
      if IsTxt(fs[0].name) {
        var head := Section(layout, dir, fs[0]);
        assert ExportFolder(layout, dir, fs) == head + rest;
        SectionShows(layout, dir, fs[0]);
        TerminatedAppend(head, rest);
        ShowsExtended(layout, dir, f, head, rest);
        LinesAppend(head, rest);
      } else {
        assert ExportFolder(layout, dir, fs) == rest;
      }
    }
  }

  /** Every `.txt` file of the shelf shows in the export: its header line and
      each of its lines; the export has at least a header line per file plus
      every line those files hold. */
  lemma {:induction false} ExportShows(shelf: Shelf, layout: Layout, d: Directory, f: NoteFile)
    ensures Terminated(Export(shelf, layout))
    ensures d in shelf && f in d.files && IsTxt(f.name) ==> Shows(layout, d.name, f, Export(shelf, layout))
    ensures |Lines(Export(shelf, layout))| >= ShelfTotal(shelf) + TxtCount(shelf)
  {
    if shelf != [] {
      var head := ExportFolder(layout, shelf[0].name, shelf[0].files);
      var rest := Export(shelf[1..], layout);
      assert Export(shelf, layout) == head + rest;
      ExportFolderShows(layout, shelf[0].name, shelf[0].files, f);
      ExportShows(shelf[1..], layout, d, f);
      TerminatedAppend(head, rest);
      ShowsExtended(layout, d.name, f, head, rest);
      LinesAppend(head, rest);
      assert d in shelf ==> d == shelf[0] || d in shelf[1..];
    }
  }

  // ---------------------------------------------------------------------
  // The exact line structure of an export

  /** The lines a file's text reads as once the trailer follows it: each of
      its lines, terminated; an empty line when the text already ended at a
      line boundary; and, categorised, the blank line that closes a section. */
  function BodyLines(layout: Layout, c: string): seq<string> {
    MapTerminate(Lines(c)) + (if Terminated(c) then ["\n"] else []) + (if layout == Categorised then ["\n"] else [])
  }

  lemma {:induction false} BodyLinesExact(layout: Layout, c: string)
    ensures Lines(c + Trailer(layout)) == BodyLines(layout, c)
  {
    LinesWithNewline(c);
    if layout == Categorised {
      var c1 := c + "\n";
      assert c + Trailer(layout) == c1 + "\n";
      LinesAppend(c1, "\n");
      OneLine([]);
      assert [] + "\n" == "\n";
    } else {
      assert c + Trailer(layout) == c + "\n";
    }
  }

  /** One section's lines: the header line, then the file's body. */
  function SectionLines(layout: Layout, dir: string, f: NoteFile): seq<string> {
    Lines(Header(SourceId(layout, dir, f.name))) + BodyLines(layout, f.content)
  }

  lemma {:induction false} SectionLinesExact(layout: Layout, dir: string, f: NoteFile)
    ensures Lines(Section(layout, dir, f)) == SectionLines(layout, dir, f)
  {
    var h := Header(SourceId(layout, dir, f.name));
    var body := f.content + Trailer(layout);
    assert Section(layout, dir, f) == h + body;
    HeaderLine(SourceId(layout, dir, f.name));
    LinesAppend(h, body);
    BodyLinesExact(layout, f.content);
  }

  /** A `.txt` file together with the directory it is listed in. */
  datatype Located = Located(dir: string, file: NoteFile)

  /** The `.txt` files of a listing, in listing order. */
  function FolderTxtFiles(dir: string, fs: Folder): seq<Located> {
    if fs == [] then [] else (if IsTxt(fs[0].name) then [Located(dir, fs[0])] else []) + FolderTxtFiles(dir, fs[1..])
  }

  /** The `.txt` files of a shelf, in scan order: directory by directory. */
  function TxtFiles(shelf: Shelf): seq<Located> {
    if shelf == [] then [] else FolderTxtFiles(shelf[0].name, shelf[0].files) + TxtFiles(shelf[1..])
  }

  /** The sections of the given files, one after the other. */
  function SectionsLines(layout: Layout, ls: seq<Located>): seq<string> {
    if ls == [] then [] else SectionLines(layout, ls[0].dir, ls[0].file) + SectionsLines(layout, ls[1..])
  }

  lemma {:induction false} SectionsLinesAppend(layout: Layout, a: seq<Located>, b: seq<Located>)
    ensures SectionsLines(layout, a + b) == SectionsLines(layout, a) + SectionsLines(layout, b)
  {
    if a != [] {
      assert (a + b)[1..] == a[1..] + b;
      SectionsLinesAppend(layout, a[1..], b);
    } else {
      assert a + b == b;
    }
  }

  /** A `.txt` file is listed exactly when some directory of the shelf lists it. */
  lemma {:induction false} TxtFilesMembership(shelf: Shelf, x: Located)
    ensures x in TxtFiles(shelf)
        <==> IsTxt(x.file.name) && exists d :: d in shelf && d.name == x.dir && x.file in d.files
  {
    if shelf != [] {
      TxtFilesMembership(shelf[1..], x);
      FolderTxtFilesMembership(shelf[0].name, shelf[0].files, x);
      if IsTxt(x.file.name) && exists d :: d in shelf && d.name == x.dir && x.file in d.files {
        var d :| d in shelf && d.name == x.dir && x.file in d.files;
        if d != shelf[0] {
          assert d in shelf[1..];
        }
      }
      if x in TxtFiles(shelf[1..]) {
        var d :| d in shelf[1..] && d.name == x.dir && x.file in d.files;
        assert d in shelf;
      }
    }
  }

  lemma {:induction false} FolderTxtFilesMembership(dir: string, fs: Folder, x: Located)
    ensures x in FolderTxtFiles(dir, fs) <==> x.dir == dir && x.file in fs && IsTxt(x.file.name)
  {
    if fs != [] {
      FolderTxtFilesMembership(dir, fs[1..], x);
      assert x.file in fs <==> x.file == fs[0] || x.file in fs[1..];
    }
  }

  /** A folder's export reads as the sections of its `.txt` files, in
      listing order. */
  lemma {:induction false} ExportFolderLines(layout: Layout, dir: string, fs: Folder)
    ensures Lines(ExportFolder(layout, dir, fs)) == SectionsLines(layout, FolderTxtFiles(dir, fs))
  {
    if fs != [] {
      var rest := ExportFolder(layout, dir, fs[1..]);
      ExportFolderLines(layout, dir, fs[1..]);
      if IsTxt(fs[0].name) {
        var head := Section(layout, dir, fs[0]);
        assert ExportFolder(layout, dir, fs) == head + rest;
        SectionShows(layout, dir, fs[0]);
        LinesAppend(head, rest);
        SectionLinesExact(layout, dir, fs[0]);
        var x := Located(dir, fs[0]);
        var later := FolderTxtFiles(dir, fs[1..]);
        assert FolderTxtFiles(dir, fs) == [x] + later;
        assert ([x] + later)[1..] == later;
        assert SectionsLines(layout, [x] + later) == SectionLines(layout, dir, fs[0]) + SectionsLines(layout, later);
      } else {
        assert ExportFolder(layout, dir, fs) == rest;
        assert FolderTxtFiles(dir, fs) == FolderTxtFiles(dir, fs[1..]);
      }
    }
  }

  /** The export reads as the sections of every `.txt` file in scan order:
      each file's header line, then each of its lines, then the trailer's
      blank lines, and nothing else. */
  lemma {:induction false} ExportLines(shelf: Shelf, layout: Layout)
    ensures Lines(Export(shelf, layout)) == SectionsLines(layout, TxtFiles(shelf))
  {
    if shelf != [] {
      var head := ExportFolder(layout, shelf[0].name, shelf[0].files);
      var rest := Export(shelf[1..], layout);
      assert Export(shelf, layout) == head + rest;
      ExportFolderShows(layout, shelf[0].name, shelf[0].files, NoteFile([], []));
      LinesAppend(head, rest);
      ExportFolderLines(layout, shelf[0].name, shelf[0].files);
      ExportLines(shelf[1..], layout);
      SectionsLinesAppend(layout, FolderTxtFiles(shelf[0].name, shelf[0].files), TxtFiles(shelf[1..]));
    }
  }
}
