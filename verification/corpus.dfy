/** The notes directory as data: a directory listing is a sequence of files
    in the order `os.listdir` returned them, each file a name and its text. */
module Corpus {
  import opened Results

  datatype NoteFile = NoteFile(name: string, content: string)

  /** One directory's listing, in enumeration order. */
  type Folder = seq<NoteFile>

  function Names(fs: Folder): (ns: seq<string>)
    ensures |ns| == |fs|
    ensures forall i :: 0 <= i < |fs| ==> ns[i] == fs[i].name
  {
    if fs == [] then [] else [fs[0].name] + Names(fs[1..])
  }

  /** Opening `name` for reading: its text, or `None` when no such file. */
  function Lookup(fs: Folder, name: string): (r: Option<string>)
    ensures r.Some? ==> NoteFile(name, r.value) in fs
  {
    if fs == [] then None
    else if fs[0].name == name then Some(fs[0].content)
    else Lookup(fs[1..], name)
  }

  /** A file can be opened exactly when the listing names it. */
  lemma {:induction false} LookupFound(fs: Folder, name: string)
    ensures Lookup(fs, name).Some? <==> name in Names(fs)
  {
    if fs != [] {
      LookupFound(fs[1..], name);
      assert Names(fs) == [fs[0].name] + Names(fs[1..]);
    }
  }

  /** The text of `name`, or "" when it does not exist yet (what append
      mode starts from). */
  function Content(fs: Folder, name: string): string {
    Lookup(fs, name).GetOr([])
  }

  /** Writing `content` to `name` in mode "w": an existing file keeps its
      place in the listing, a new one is listed last. */
  function Put(fs: Folder, name: string, content: string): (r: Folder)
    ensures Lookup(r, name) == Some(content)
    ensures forall n :: n != name ==> Lookup(r, n) == Lookup(fs, n)
    ensures |r| == if name in Names(fs) then |fs| else |fs| + 1
    ensures forall i :: 0 <= i < |fs| ==> r[i].name == fs[i].name
    ensures forall i :: 0 <= i < |fs| && fs[i].name != name ==> r[i] == fs[i]
    ensures name !in Names(fs) ==> r[|fs|] == NoteFile(name, content)
  {
    if fs == [] then
      [NoteFile(name, content)]
    else if fs[0].name == name then
      var r := [NoteFile(name, content)] + fs[1..];
      assert r[1..] == fs[1..];
      assert r[0] == NoteFile(name, content);
      assert Lookup(r, name) == Some(content);
      assert forall n :: n != name ==> Lookup(r, n) == Lookup(fs[1..], n) == Lookup(fs, n);
      r
    else
      var rest := Put(fs[1..], name, content);
      assert ([fs[0]] + rest)[1..] == rest;
      assert ([fs[0]] + rest)[0] == fs[0];
      assert Lookup([fs[0]] + rest, name) == Lookup(rest, name);
      assert name in Names(fs) <==> name in Names(fs[1..]) by {
        assert Names(fs) == [fs[0].name] + Names(fs[1..]);
      }
      [fs[0]] + rest
  }

  /** Rewriting an existing file leaves the listing's names as they were;
      writing a new one adds its name at the end. */
  lemma {:induction false} PutNames(fs: Folder, name: string, content: string)
    ensures Names(Put(fs, name, content)) == if name in Names(fs) then Names(fs) else Names(fs) + [name]
  {
    var r := Put(fs, name, content);
    var expected := if name in Names(fs) then Names(fs) else Names(fs) + [name];
    assert |Names(r)| == |expected|;
    forall i | 0 <= i < |r| ensures Names(r)[i] == expected[i] {
      if i == |fs| {
        assert r[i] == NoteFile(name, content);
      }
    }
  }

  /** A write leaves the other files as they were and adds nothing else. */
  lemma {:induction false} PutMembers(fs: Folder, name: string, content: string, f: NoteFile)
    ensures f in Put(fs, name, content) ==> f in fs || f == NoteFile(name, content)
  {
    if fs != [] && fs[0].name != name {
      PutMembers(fs[1..], name, content, f);
    }
  }

  /** Writing `text` to `name` in mode "a": the file is created if missing
      and `text` lands after everything it held. */
  function Append(fs: Folder, name: string, text: string): (r: Folder)
    ensures Lookup(r, name) == Some(Content(fs, name) + text)
    ensures forall n :: n != name ==> Lookup(r, n) == Lookup(fs, n)
    ensures |fs| <= |r|
    ensures forall i :: 0 <= i < |fs| && fs[i].name != name ==> r[i] == fs[i]
  {
    var c := Content(fs, name) + text;
    Put(fs, name, c)
  }

  /** The naming convention both applications use for a day's note file. */
  function NoteFileName(date: string): string {
    date + "_notes.txt"
  }

  /** A directory whose listing is `files`, reported under `name`. */
  datatype Directory = Directory(name: string, files: Folder)

  /** The directories a scan visits, in the order it visits them. */
  type Shelf = seq<Directory>

  /** One line of one file, tagged with where it came from. */
  datatype Entry = Entry(dir: string, file: string, text: string)
}
