# Smart Notebook: a Dafny model of the note store

Smart Notebook is a small Tk desktop notebook that exists in two variants.
Each variant keeps its notes as plain text files, one file per day, named
`<YYYY-MM-DD>_notes.txt`. Each line of a file is one note.

- The categorised application (`smart_notebook.py`) keeps a folder per
  category (`school`, `personal`, `ideas`, `journal`) under `notes/`. It
  stamps every note with `[HH:MM]` and offers:
  - Add Note;
  - Edit Notes, which rewrites a whole file;
  - Delete Note, which removes one line by number;
  - Search Notes, by keyword and an optional date filter;
  - Today's Notes;
  - Notebook Stats, which gives the line total and the most used word;
  - Export All Notes, which writes one text file with a header per note file.
- The flat application (`smartnotebook.py`) keeps every day file directly
  in `notes/`. It offers:
  - the same Add, Delete (from a list box), Search, Stats and Export
    commands;
  - `hex_to_rgb`, the colour parser its background gradient uses.

This project models the note store and those commands as pure functions
over immutable data:

| file | module | contents |
|---|---|---|
| `results.dfy` | `Results` | `Option`, `Result`, and Python's truthiness test for dialog answers (`Blank`) |
| `text.dfy` | `Text` | ASCII `lower`, `isspace`, substring search (`in`), `strip`, `lstrip` and `split` |
| `lines.dfy` | `LineFiles` | `readlines` (`Lines`) and `writelines` (`Join`), with both round trips and the lemmas about appending and deleting lines |
| `corpus.dfy` | `Corpus` | a directory listing as a sequence of files; reading, writing (mode `"w"`) and appending (mode `"a"`) |
| `scan.dfy` | `Scanning` | the nested "every category, every file, every line" loop shared by search, the day view and the statistics, proved equal to a filter over all lines |
| `export.dfy` | `Exporting` | the export text of both layouts and what it shows of each file |
| `words.dfy` | `WordStats` | the word-frequency table and `max(table, key=table.get)` |
| `notebook.dfy` | `Notebook` | the categorised application's commands |
| `flat_notebook.dfy` | `FlatNotebook` | the flat application's commands |
| `colour.dfy` | `Colour` | `hex_to_rgb`, including `int(x, 16)` on its two-character slices |

Dialog answers are `Option` parameters, where `None` means cancelled.
The clock's date and time are string parameters. A directory's state is a
`Folder`: its files in `os.listdir` order, each with its whole text.
Add, edit and delete return the new folder or store. The categorised
export returns the text it writes to the chosen path; the flat export
returns the folder with `all_notes.txt` written. A refusal (a cancelled or
blank answer, a bad choice, a missing file or an out-of-range line) gives
an error value or `None`, except in the flat Add Note, which returns the
folder unchanged; in every case no file changes. Search, today's notes
and statistics return what the window shows: a "nothing found"
information box is an empty result, not an error.

## Model

| member | source | states |
|---|---|---|
| Notebook.ParseCategory | smart_notebook.py:10 | an answer is a category exactly when it is one of the four category names |
| Notebook.ResolveCategory | smart_notebook.py:117-121 | an answer that is not a category name falls back to `personal` and reports the fallback; a valid answer keeps its own category |
| Notebook.NotePathInjective | smart_notebook.py:123-124 | two different (category, date) pairs never share a note path |
| Notebook.AddNote | smart_notebook.py:107-129 | a blank or cancelled note writes nothing; otherwise `[time] note` and a line feed are appended to today's file of the resolved category, the reported path is that file's path, and every other file is unchanged |
| Notebook.AddNoteAppendsLine | smart_notebook.py:126-127 | on a file that ends at a line boundary, adding a one-line note adds exactly that line at the end and keeps every earlier line |
| Notebook.TxtNames | smart_notebook.py:140 | the offered file list holds exactly the listing's names that end in `.txt` |
| Notebook.ChooseFile | smart_notebook.py:135-152 | an invalid category, a category with no `.txt` file, and a choice outside the offered list are each refused with their own error; otherwise the chosen file is a listed `.txt` file and its text is read |
| Notebook.EditNotes | smart_notebook.py:134-162 | saving succeeds exactly when a file was chosen; the file then holds the edited text stripped of surrounding whitespace, and every other file is unchanged |
| Notebook.ReopenAfterSave | smart_notebook.py:134-157 | after a save the same category and file can be chosen again, and the editor then shows the stripped text that was saved |
| Notebook.ResaveUnchanged | smart_notebook.py:149-162 | saving an untouched editor a second time, with the line feed Tk adds, writes the same text, so no file changes |
| Notebook.DeleteNoteSpec | smart_notebook.py:171-199 | a delete succeeds exactly for a chosen file and a line number in 1..len(lines); the file then reads as its old lines minus that one, in order, one line shorter, with every other file unchanged; a missing or out-of-range number is refused |
| Notebook.SearchNotes | smart_notebook.py:207-209 | a blank or cancelled keyword yields no search |
| Notebook.SearchExact | smart_notebook.py:212-220 | an entry is a hit exactly when it is a line of a listed `.txt` file whose name contains the date filter (if one is given) and the line contains the keyword, ignoring case |
| Notebook.SearchOrder | smart_notebook.py:213-220 | hits are all matching lines in category-list order, then listing order, then line order |
| Notebook.Render | smart_notebook.py:220-223 | the result text is empty, the "No Results" case, exactly when there are no hits |
| Notebook.RenderOne | smart_notebook.py:220 | one hit is shown as `cat/file: line` |
| Notebook.RenderAppend | smart_notebook.py:211-220 | the results text is the hits' texts one after another, in hit order |
| Notebook.TodayExact | smart_notebook.py:234-243 | the day view holds exactly the lines of the files whose name ends in `<today>_notes.txt`, in every category, in corpus order |
| Notebook.NotebookStats | smart_notebook.py:257-272 | the total is the line count of all `.txt` files; the most used word is "N/A" exactly when no cleaned word exists; otherwise it is a cleaned, lower-cased word with the largest count |
| Notebook.ExportAll | smart_notebook.py:279-284 | a cancelled save dialog exports nothing |
| Notebook.ExportAllShows | smart_notebook.py:286-296 | the export's lines are exactly, for each `.txt` file in category-list order and then listing order, its `--- category/file ---` header line, each of its lines (terminated) and the blank lines of the `"\n\n"` trailer; so every file shows its header and each line, and the export has at least a header line per file on top of all their lines |
| Notebook.RewriteKeepsTerminated | smart_notebook.py:197-199 | rewriting one file with text that ends at a line boundary keeps every file ending at a line boundary |
| Notebook.AddNoteKeepsTerminated | smart_notebook.py:126-127 | adding a note keeps every file ending at a line boundary |
| Notebook.DeleteNoteKeepsTerminated | smart_notebook.py:188-199 | deleting a line keeps every file ending at a line boundary |
| Notebook.EditThenAddJoinsLines | smart_notebook.py:160-162 | as written, after an edit the next note added to the same file is glued onto the file's last line instead of becoming a line of its own |
| Notebook.EditNotesKeepingLines | smart_notebook.py:160-162 | the corrected save writes the stripped text as whole lines, so the file ends at a line boundary |
| Notebook.EditKeepingLinesThenAdd | smart_notebook.py:160-162 | with the corrected save, a note added after an edit becomes a line of its own after the edited lines |
| FlatNotebook.ExportNameIsTxt | smartnotebook.py:200 | the export file `all_notes.txt` is itself a `.txt` file of the notes directory |
| FlatNotebook.FlatHolds | smartnotebook.py:159-163 | a scan of the notes directory holds exactly the lines of its listed files |
| FlatNotebook.AddNote | smartnotebook.py:61-72 | a blank or cancelled note writes nothing; otherwise the note and a line feed are appended to today's file, and every other file is unchanged |
| FlatNotebook.AddNoteAppendsLine | smartnotebook.py:69-70 | on a file that ends at a line boundary, a one-line note becomes exactly one new last line |
| FlatNotebook.OpenDelete | smartnotebook.py:100-109 | the Delete window opens exactly when today's file exists, and then holds well-formed lines that write back to the file's text |
| FlatNotebook.DeleteSelectedSpec | smartnotebook.py:121-129 | no selection changes nothing; a row past the window's last line is refused; otherwise the row is popped from the window's lines, today's file then reads as the remaining lines, and every other file is unchanged |
| FlatNotebook.DeleteAfterOpening | smartnotebook.py:108-129 | deleting right after opening the window removes exactly the selected line of today's file and keeps the others in order |
| FlatNotebook.DeleteLosesNoteAddedMeanwhile | smartnotebook.py:108-128 | a note added while the Delete window is open is overwritten by the next delete: the file ends two lines shorter than just before the delete |
| FlatNotebook.ToMatches | smartnotebook.py:165 | each hit records the file name and the line stripped of surrounding whitespace |
| FlatNotebook.Search | smartnotebook.py:153-155 | a blank or cancelled keyword yields no search |
| FlatNotebook.SearchOrder | smartnotebook.py:159-165 | hits are the matching lines in listing order, then line order |
| FlatNotebook.SearchExact | smartnotebook.py:159-165 | a match is reported exactly for a line of a listed `.txt` file that contains the keyword, ignoring case, reported as its file name and stripped text |
| FlatNotebook.SearchHitHasSource | smartnotebook.py:159-165 | every reported match comes from a matching line of a `.txt` file |
| FlatNotebook.SourceIsSearchHit | smartnotebook.py:159-165 | every matching line of a `.txt` file is reported |
| FlatNotebook.FlatStats | smartnotebook.py:181-195 | the total is the line count of all `.txt` files; the most used word is "None" exactly when there is no token; otherwise it is a lower-cased token with the largest count |
| FlatNotebook.ExportAll | smartnotebook.py:199-207 | `all_notes.txt` holds the export of the directory as listed once the file has been opened and truncated; every other file is unchanged and keeps its place |
| FlatNotebook.ExportAllShows | smartnotebook.py:203-207 | `all_notes.txt` reads exactly as, for each `.txt` file in listing order (itself included, as empty), its `--- file ---` header line, each of its lines (terminated) and an empty line when the file already ended at a line boundary; so every other `.txt` file shows its header and each line |
| FlatNotebook.TerminateKeepsMatch | smartnotebook.py:163-165 | a line feed after a line keeps a keyword match and does not change the stripped text |
| FlatNotebook.ExportKeepsFile | smartnotebook.py:202-207 | exporting leaves every other file in the directory |
| FlatNotebook.ExportHoldsLine | smartnotebook.py:205-207 | each line of each other `.txt` file is a line of the export, ending with a line feed |
| FlatNotebook.ExportedLineHit | smartnotebook.py:159-165 | each matching note line is also a matching line of the export file |
| FlatNotebook.ExportFeedsSearch | smartnotebook.py:159-207 | after an export, a search reports each matching note line twice: once from its own file and once from `all_notes.txt` |
| FlatNotebook.FirstExportDoublesTotal | smartnotebook.py:185-207 | the first export at least doubles the line total the statistics report |
| Colour.ParseHex | smartnotebook.py:58 | `int(x, 16)` on a slice of at most two characters, skipping only the whitespace `int` skips, is an integer in -15..255, and it is negative only if the slice has a minus sign |
| Colour.SeparatorNotSkipped | smartnotebook.py:58 | an information separator such as 0x1C is whitespace to `str.isspace` but not to `int`, so a slice starting with one is refused |
| Colour.HexBound | smartnotebook.py:58 | one hex digit is below 16 and two are below 256 |
| Colour.Slice | smartnotebook.py:58 | `s[i:j]` is `s[i..j]` when `j` is within the text, the tail from `i` when only `i` is, empty when `i` is past the end, and never longer than the requested range |
| Colour.HexToRgb | smartnotebook.py:56-58 | a successful parse gives three components, each in -15..255 |
| Colour.ParseTwoDigits | smartnotebook.py:58 | two hex digits parse to their value |
| Colour.HexToRgbDigits | smartnotebook.py:56-58 | a code whose first six characters after the leading `#`s are hex digits parses to the values of its three digit pairs, each in 0..255 |
| Colour.ParsePair | smartnotebook.py:53-58 | `{n:02x}` read back with `int(x, 16)` gives `n` |
| Colour.FormatRoundTrip | smartnotebook.py:53-58 | reading back a colour the gradient formats as `#rrggbb` gives the colour |
| Colour.GradientEndRejected | smartnotebook.py:20 | as written, the gradient's end colour "white" is refused, because `int("wh", 16)` raises |
| Colour.GradientEndIsWhite | smartnotebook.py:20 | the corrected end colour `#ffffff` parses to white |
| Scanning.FilterAppend | smart_notebook.py:213-220 | filtering distributes over concatenation |
| Scanning.FilterMembership | smart_notebook.py:216-220 | a filter keeps exactly the selected entries |
| Scanning.ScanIsFilter | smart_notebook.py:213-220 | the nested directory, file and line loops yield exactly the selected lines of the corpus, in order |
| Scanning.EntriesMembership | smart_notebook.py:213-218 | the corpus view lists exactly the lines the directories hold |
| Scanning.ScanMembership | smart_notebook.py:213-220 | a scan yields a line exactly when the shelf holds it and the file and line tests both keep it |
| Scanning.ScanEveryCount | smart_notebook.py:260-266 | scanning every `.txt` line visits as many lines as the line total counts |
| Scanning.FolderTotalPut | smart_notebook.py:263-266 | rewriting one `.txt` file changes the total by the change in that file's line count |
| Exporting.ContentWithTrailer | smart_notebook.py:293 | a file's text followed by the layout's trailer ends at a line boundary and still holds each of its lines, line-feed terminated |
| Exporting.HeaderLine | smart_notebook.py:292 | a header ends with a line feed, and is one line when the id has no line feed |
| Exporting.SectionShows | smart_notebook.py:292-293 | one file's section shows its header line and each of its lines |
| Exporting.ExportFolderShows | smart_notebook.py:289-293 | a directory's export shows each of its `.txt` files |
| Exporting.BodyLinesExact | smart_notebook.py:293 | a file's text followed by the trailer reads as its lines terminated, an empty line when it already ended at a line boundary, and the categorised blank line |
| Exporting.SectionLinesExact | smart_notebook.py:292-293 | one section reads as its header's lines followed by the file's body lines |
| Exporting.ExportFolderLines | smart_notebook.py:289-293 | a directory's export reads as the sections of its `.txt` files, in listing order |
| Exporting.ExportLines | smart_notebook.py:286-293 | the export reads as the sections of every `.txt` file in scan order, and nothing else |
| Exporting.TxtFilesMembership | smart_notebook.py:287-290 | the files the export visits are exactly the `.txt` files some directory lists |
| Exporting.ExportShows | smart_notebook.py:286-293 | the export ends at a line boundary, shows every `.txt` file of every directory, and has at least a header line per file on top of all their lines |
| WordStats.CleanIsCountedWord | smart_notebook.py:268-271 | a cleaned token that is counted is non-empty, lower-case, free of whitespace and, when punctuation is stripped, free of edge punctuation |
| WordStats.TokenWords | smart_notebook.py:268-271 | the counted words of a line are exactly its cleaned tokens that are counted |
| WordStats.TokenWordsCount | smart_notebook.py:268-271 | a word occurs among a line's counted words exactly as often as tokens clean to it, and never when it is not counted |
| WordStats.CountWords | smart_notebook.py:271 | the table has exactly the words seen, each mapped to its number of occurrences |
| WordStats.ArgMax | smart_notebook.py:272 | the chosen word was seen and no word has a larger count |
| WordStats.MostUsed | smart_notebook.py:272 | an empty table gives the placeholder; otherwise a word of the table with the largest count |
| WordStats.ShelfStats | smart_notebook.py:257-272 | the total is the line count; the placeholder is returned exactly when no word is counted; otherwise a counted word with the largest count |
| LineFiles.Lines | smart_notebook.py:189 | `readlines` of a text is empty exactly when the text is |
| LineFiles.JoinLines | smart_notebook.py:188-199 | writing back the lines read from a text gives the text again |
| LineFiles.LinesJoin | smart_notebook.py:188-199 | reading back well-formed lines that were written gives the same lines |
| LineFiles.LinesWellFormed | smart_notebook.py:189 | every line read ends with its only line feed, except possibly the last, which has none |
| LineFiles.LinesAppend | smart_notebook.py:126-127 | after a text that ends at a line boundary, appended text adds exactly its own lines |
| LineFiles.LinesWithNewline | smart_notebook.py:293 | adding a line feed terminates the last line, or adds an empty line when the text already ended at a boundary |
| LineFiles.GluedOnto | smart_notebook.py:126-127 | text appended after an unterminated last line joins that line |
| LineFiles.RemoveAt | smart_notebook.py:197 | `del lines[i]` keeps the lines before `i` and shifts the later ones down by one |
| LineFiles.RemoveAtWellFormed | smart_notebook.py:197-199 | removing a line keeps the lines well formed |
| LineFiles.TerminatedLines | smart_notebook.py:189 | every line read from a text that ends at a line boundary ends with a line feed |
| Corpus.LookupFound | smart_notebook.py:140-152 | a file can be opened exactly when the listing names it |
| Corpus.Put | smart_notebook.py:198-199 | after a write, the file holds the new text, no other file changes, an existing file keeps its place and a new one is listed last |
| Corpus.PutNames | smart_notebook.py:198-199 | rewriting an existing file keeps the listing's names; a new file adds its name at the end |
| Corpus.Append | smart_notebook.py:126-127 | appending makes the file its old text (or empty) followed by the new text, and no other file changes |
| Text.Lower | smart_notebook.py:219 | lower-casing keeps the length, turns each upper-case letter into the same letter in lower case and keeps every other character |
| Text.Contains | smart_notebook.py:219 | `x in y` holds exactly when `x` occurs at some position of `y` |
| Text.StripShape | smart_notebook.py:269 | `strip` removes a droppable prefix and suffix and keeps the middle |
| Text.StripEdges | smart_notebook.py:269 | a stripped text is empty, or starts and ends with characters that are not dropped |
| Text.StripIdempotent | smart_notebook.py:162 | stripping twice is the same as stripping once |
| Text.Tokens | smart_notebook.py:268 | `split()` gives non-empty tokens without whitespace |
| Text.TokensExact | smart_notebook.py:268 | `ts` is `split()` of `s` exactly when `s` is the words `ts` in order, with whitespace around them and at least one whitespace character between neighbours |
| Text.TokensOfSpread | smart_notebook.py:268 | words spread out with whitespace between them split back into exactly those words |
| Text.LStrip | smartnotebook.py:57 | `lstrip('#')` removes a prefix made only of `#` and leaves a text that does not start with `#` |

## Left out

- The Tk window, canvas, buttons, message boxes and the gradient's colour interpolation are left out. `Colour.Format` models the colour string the gradient builds.
- The clock is a parameter. So is the file system: each directory is given as its listing, in `os.listdir` order. Creating a file appends it at the end of that order.
- Text is treated as ASCII. `lower()`, `isspace()` and `split()` follow Python for ASCII characters. Unicode case mapping and whitespace are left out. Reads and writes use the text exactly, with no newline translation.
- The categorised application's Exit command (a zip backup of `notes/`) is left out, because it only copies files.
- The flat application's Edit Notes and Today's Notes are left out. Today's Notes only shows a file. Edit Notes writes back the editor's text as Tk returns it, with one extra line feed at the end, so every save adds an empty line; that is not modelled.
- Tk's `Text.get` adds a trailing line feed to what the user typed. This is left out: `Notebook.EditNotes` takes the editor's text as a parameter, and the strip removes that line feed anyway.
- The categorised export's output is returned as a string, not written into the store. An export path inside `notes/` would add a `.txt` file there, and that is left out.
- A folder or file that cannot be opened makes Python raise. The model assumes the category folders exist and that files are readable.
- Notebook.NotebookStats: `max()` returns the first word of largest count in the table's insertion order. The contract states only that the word has the largest count. `WordStats.ArgMax` does pick the earliest such word.
- FlatNotebook.FlatStats: the same tie-break is left out of the contract as for `Notebook.NotebookStats`.
- FlatNotebook.ExportAll: the export file is read while it is open for writing. The model assumes nothing has been flushed yet, so the file reads as empty. Buffer flushes of large exports are left out.
- FlatNotebook.DeleteSelectedSpec: a row past the end of the list box cannot be selected in Tk, because the list box and the window's lines lose the same row on each delete. The model refuses it with `SelectionOutOfRange`.
- Colour.HexToRgb: the components range down to -15, because `int()` accepts a sign and surrounding whitespace within a slice. Only slices of at most two characters are modelled, which is what `hex_to_rgb` takes.

## Findings

| source | as written | input that shows it | evidently intended | confidence | as-written member | corrected member |
|---|---|---|---|---|---|---|
| smartnotebook.py:20 | the gradient's end colour is `"white"`, which `hex_to_rgb` slices into `"wh"`, and `int("wh", 16)` raises, so the window cannot be built | `hex_to_rgb("white")` | a hex colour such as `"#ffffff"` | high (not executed) | Colour.GradientEndRejected | Colour.GradientEndIsWhite |
| smart_notebook.py:162 | Save Changes writes `text.strip()`, which drops the file's final line feed, so the next Add Note for that file is glued onto its last line | edit today's file to `"[09:00] a\n"`, save, then add note `b` at 10:00: the file reads `"[09:00] a[10:00] b\n"`, one line | save whole lines, keeping the final line feed | high (not executed) | Notebook.EditThenAddJoinsLines | Notebook.EditKeepingLinesThenAdd |
