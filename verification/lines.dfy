/** A note file's text seen as lines, the way Python's `readlines()` (and
    iterating over an open text file) splits it, and the way `writelines()`
    puts lines back together. */
module LineFiles {
  import opened Text

  /** A line as `readlines()` yields it: non-empty, with a line feed at
      most as its very last character. */
  predicate IsLine(l: string) {
    l != [] && forall k :: 0 <= k < |l| - 1 ==> l[k] != '\n'
  }

  /** Empty, or ending in a line feed. */
  predicate Terminated(s: string) {
    s == [] || s[|s| - 1] == '\n'
  }

  /** What `readlines()` can return: lines, all but the last terminated. */
  predicate WellFormed(ls: seq<string>) {
    && (forall i :: 0 <= i < |ls| ==> IsLine(ls[i]))
    && (forall i :: 0 <= i < |ls| - 1 ==> Terminated(ls[i]))
  }

  predicate NotNewline(c: char) {
    c != '\n'
  }

  /** Length of the first line of `s`, line feed included. */
  function LineEnd(s: string): (n: nat)
    requires s != []
    ensures 0 < n <= |s|
    ensures n < |s| ==> s[n - 1] == '\n'
    decreases |s|
  {
    if s[0] == '\n' || |s| == 1 then 1 else 1 + LineEnd(s[1..])
  }

  /** A first line is pinned down by where its first line feed is. */
  lemma {:induction false} LineEndUnique(s: string, n: nat)
    requires 0 < n <= |s|
    requires forall j :: 0 <= j < n - 1 ==> s[j] != '\n'
    requires n < |s| ==> s[n - 1] == '\n'
    ensures LineEnd(s) == n
    decreases n
  {
    if n > 1 {
      assert s[0] != '\n';
      assert forall j :: 0 <= j < n - 2 ==> s[1..][j] == s[j + 1];
      LineEndUnique(s[1..], n - 1);
    }
  }

  /** Python's `readlines()`. */
  function Lines(s: string): (ls: seq<string>)
    ensures s == [] <==> ls == []
    decreases |s|
  {
    if s == [] then [] else var n := LineEnd(s); [s[..n]] + Lines(s[n..])
  }

  /** A non-empty text is its first line followed by the lines of the rest. */
  lemma {:induction false} LinesCons(s: string)
    requires s != []
    ensures Lines(s) == [s[..LineEnd(s)]] + Lines(s[LineEnd(s)..])
  {
  }

  /** The first line has no line feed but possibly its last character. */
  lemma {:induction false} LineEndIsLine(s: string)
    requires s != []
    ensures IsLine(s[..LineEnd(s)])
    decreases |s|
  {
    if s[0] != '\n' && |s| > 1 {
      var n := LineEnd(s);
      LineEndIsLine(s[1..]);
      forall j | 0 <= j < n - 1 ensures s[..n][j] != '\n' {
        if j > 0 {
          assert s[..n][j] == s[1..][..n - 1][j - 1];
        }
      }
    }
  }

  /** `readlines()` yields lines, every one but the last terminated. */
  lemma {:induction false} LinesWellFormed(s: string)
    ensures WellFormed(Lines(s))
    decreases |s|
  {
    if s != [] {
      var n := LineEnd(s);
      LineEndIsLine(s);
      LinesWellFormed(s[n..]);
      var ls := Lines(s);
      assert ls == [s[..n]] + Lines(s[n..]);
      assert n < |s| ==> Terminated(s[..n]);
      assert n == |s| ==> Lines(s[n..]) == [];
      forall i | 0 <= i < |ls| - 1 ensures Terminated(ls[i]) {
        if i > 0 {
          assert ls[i] == Lines(s[n..])[i - 1];
        }
      }
    }
  }

  /** Python's `writelines()`: the lines written one after another. */
  function Join(ls: seq<string>): string {
    if ls == [] then [] else ls[0] + Join(ls[1..])
  }

  /** Splitting a text and writing the lines back gives the text again. */
  lemma {:induction false} JoinLines(s: string)
    ensures Join(Lines(s)) == s
    decreases |s|
  {
    if s != [] {
      var n := LineEnd(s);
      JoinLines(s[n..]);
      assert s == s[..n] + s[n..];
    }
  }

  /** Writing well-formed lines and reading them back gives the same lines. */
  lemma {:induction false} LinesJoin(ls: seq<string>)
    requires WellFormed(ls)
    ensures Lines(Join(ls)) == ls
  {
    if ls != [] {
      var s := Join(ls);
      var l := ls[0];
      assert WellFormed(ls[1..]);
      var rest := Join(ls[1..]);
      assert s == l + rest;
      assert forall j :: 0 <= j < |l| - 1 ==> s[j] == l[j];
      if l[|l| - 1] != '\n' {
        assert |ls| == 1;
        assert rest == [];
      }
      LineEndUnique(s, |l|);
      assert s[..|l|] == l && s[|l|..] == rest;
      LinesJoin(ls[1..]);
    }
  }

  lemma {:induction false} JoinAppend(a: seq<string>, b: seq<string>)
    ensures Join(a + b) == Join(a) + Join(b)
  {
    if a != [] {
      assert (a + b)[1..] == a[1..] + b;
      JoinAppend(a[1..], b);
    } else {
      assert a + b == b;
    }
  }

  lemma {:induction false} JoinTerminated(ls: seq<string>)
    requires forall i :: 0 <= i < |ls| ==> Terminated(ls[i])
    ensures Terminated(Join(ls))
  {
    if ls != [] {
      JoinTerminated(ls[1..]);
    }
  }

  /** When the first line of `a` ends with a line feed, anything appended to
      `a` leaves that first line alone. */
  lemma {:induction false} FirstLineKept(a: string, b: string)
    requires a != [] && a[LineEnd(a) - 1] == '\n'
    ensures LineEnd(a + b) == LineEnd(a)
    ensures (a + b)[..LineEnd(a)] == a[..LineEnd(a)]
    ensures (a + b)[LineEnd(a)..] == a[LineEnd(a)..] + b
  {
    var n := LineEnd(a);
    var s := a + b;
    LineEndIsLine(a);
    assert forall j :: 0 <= j < n - 1 ==> s[j] == a[..n][j];
    LineEndUnique(s, n);
  }

  lemma {:induction false} TerminatedAppend(a: string, b: string)
    requires Terminated(a) && Terminated(b)
    ensures Terminated(a + b)
  {
    if b == [] {
      assert a + b == a;
    }
  }

  /** Text that ends at a line boundary splits independently of what follows. */
  lemma {:induction false} LinesAppend(a: string, b: string)
    requires Terminated(a)
    ensures Lines(a + b) == Lines(a) + Lines(b)
    decreases |a|
  {
    if a == [] {
      assert a + b == b;
    } else {
      var n := LineEnd(a);
      assert a[n - 1] == '\n';
      FirstLineKept(a, b);
      LinesAppend(a[n..], b);
    }
  }

  predicate NoNewline(t: string) {
    forall k :: 0 <= k < |t| ==> t[k] != '\n'
  }

  /** A text without line feeds followed by one line feed is a single line. */
  lemma {:induction false} OneLine(t: string)
    requires NoNewline(t)
    ensures Lines(t + "\n") == [t + "\n"]
  {
    var s := t + "\n";
    LineEndUnique(s, |s|);
    assert LineEnd(s) == |s|;
    assert s[..|s|] == s;
    assert s[|s|..] == [];
    assert Lines(s[|s|..]) == [];
  }

  /** A text whose first line is all of it is a single line. */
  lemma {:induction false} SingleLine(c: string)
    requires c != [] && LineEnd(c) == |c|
    ensures Lines(c) == [c]
  {
    assert c[..|c|] == c;
    assert c[|c|..] == [];
  }

  /** A line with a line feed added unless it already has one. */
  function Terminate(l: string): (r: string)
    ensures Terminated(r) && r != []
  {
    if l != [] && l[|l| - 1] == '\n' then l else l + "\n"
  }

  function MapTerminate(ls: seq<string>): (rs: seq<string>)
    ensures |rs| == |ls|
    ensures forall i :: 0 <= i < |ls| ==> rs[i] == Terminate(ls[i])
  {
    if ls == [] then [] else [Terminate(ls[0])] + MapTerminate(ls[1..])
  }

  /** The case of a text that is a single line. */
  lemma {:induction false} NewlineAfterLine(c: string)
    requires c != [] && LineEnd(c) == |c|
    ensures Lines(c + "\n") == [Terminate(c)] + (if Terminated(c) then ["\n"] else [])
  {
    SingleLine(c);
    if c[|c| - 1] == '\n' {
      LinesAppend(c, "\n");
      OneLine([]);
      assert [] + "\n" == "\n";
    } else {
      LineEndIsLine(c);
      assert c[..|c|] == c;
      OneLine(c);
    }
  }

  /** A line feed appended after the first line break leaves the first line
      alone. */
  lemma {:induction false} NewlineAfterFirst(c: string)
    requires c != [] && LineEnd(c) < |c|
    ensures Lines(c + "\n") == [c[..LineEnd(c)]] + Lines(c[LineEnd(c)..] + "\n")
  {
    FirstLineKept(c, "\n");
  }

  lemma {:induction false} MapTerminateCons(l: string, ls: seq<string>)
    ensures MapTerminate([l] + ls) == [Terminate(l)] + MapTerminate(ls)
  {
    assert ([l] + ls)[1..] == ls;
  }

  lemma {:induction false} TerminatedSuffix(c: string, n: nat)
    requires n < |c|
    ensures Terminated(c) == Terminated(c[n..])
  {
    assert c[n..][|c| - n - 1] == c[|c| - 1];
  }

  lemma {:induction false} SeqAssoc<T>(a: seq<T>, b: seq<T>, c: seq<T>)
    ensures a + (b + c) == (a + b) + c
  {
  }

  /** Appending a line feed to a text terminates its last line, or adds an
      empty line when the text already ended at a line boundary. */
  lemma {:induction false} LinesWithNewline(c: string)
    ensures Lines(c + "\n") == MapTerminate(Lines(c)) + (if Terminated(c) then ["\n"] else [])
    decreases |c|
  {
    if c == [] {
      OneLine([]);
      assert c + "\n" == [] + "\n" == "\n";
      assert MapTerminate(Lines(c)) == [];
      assert Lines(c + "\n") == ["\n"];
    } else if LineEnd(c) == |c| {
      NewlineAfterLine(c);
      SingleLine(c);
      MapTerminateCons(c, []);
      assert MapTerminate(Lines(c)) == [Terminate(c)];
    } else {
      var n := LineEnd(c);
      var first, tail := c[..n], c[n..];
      TerminatedSuffix(c, n);
      var extra: seq<string> := if Terminated(tail) then ["\n"] else [];
      NewlineAfterFirst(c);
      LinesWithNewline(tail);
      var m := MapTerminate(Lines(tail));
      assert Lines(c + "\n") == [first] + (m + extra);
      LinesCons(c);
      assert Terminate(first) == first;
      MapTerminateCons(first, Lines(tail));
      assert MapTerminate(Lines(c)) == [first] + m;
      SeqAssoc([first], m, extra);
    }
  }

  lemma {:induction false} NoNewlineAppend(a: string, b: string)
    requires NoNewline(a) && NoNewline(b)
    ensures NoNewline(a + b)
  {
    forall k | 0 <= k < |a + b| ensures (a + b)[k] != '\n' {
      if k >= |a| {
        assert (a + b)[k] == b[k - |a|];
      }
    }
  }

  /** A non-empty text is its lines but the last, which end at a line
      boundary, followed by its last line. */
  lemma {:induction false} LastLine(x: string)
    requires x != []
    ensures |Lines(x)| >= 1
    ensures x == Join(Lines(x)[..|Lines(x)| - 1]) + Lines(x)[|Lines(x)| - 1]
    ensures Terminated(Join(Lines(x)[..|Lines(x)| - 1]))
  {
    var ls := Lines(x);
    JoinLines(x);
    var n := |ls|;
    var init, last := ls[..n - 1], ls[n - 1];
    assert ls == init + [last];
    LinesWellFormed(x);
    JoinAppend(init, [last]);
    assert Join([last]) == last + Join([]);
    JoinTerminated(init);
  }

  lemma {:induction false} Regroup(a: string, b: string, c: string)
    ensures a + b + c + "\n" == a + ((b + c) + "\n")
  {
  }

  /** Text appended to a file that does not end at a line boundary joins
      its last line instead of starting a new one. */
  lemma {:induction false} GluedOnto(x: string, t: string)
    requires !Terminated(x) && NoNewline(t)
    ensures |Lines(x)| >= 1
    ensures Lines(x + t + "\n") == Lines(x)[..|Lines(x)| - 1] + [Lines(x)[|Lines(x)| - 1] + t + "\n"]
  {
    UnterminatedLast(x);
    var ls := Lines(x);
    var n := |ls|;
    var init, last := ls[..n - 1], ls[n - 1];
    var head := Join(init);
    NoNewlineAppend(last, t);
    var glued := (last + t) + "\n";
    Regroup(head, last, t);
    LinesAppend(head, glued);
    OneLine(last + t);
    LinesJoin(init);
    assert x + t + "\n" == head + glued;
  }

  /** The last line of a text that does not end at a line boundary has no
      line feed, and the lines before it are well formed. */
  lemma {:induction false} UnterminatedLast(x: string)
    requires !Terminated(x)
    ensures |Lines(x)| >= 1
    ensures x == Join(Lines(x)[..|Lines(x)| - 1]) + Lines(x)[|Lines(x)| - 1]
    ensures Terminated(Join(Lines(x)[..|Lines(x)| - 1]))
    ensures NoNewline(Lines(x)[|Lines(x)| - 1])
    ensures WellFormed(Lines(x)[..|Lines(x)| - 1])
  {
    LastLine(x);
    var ls := Lines(x);
    var n := |ls|;
    var last := ls[n - 1];
    LinesWellFormed(x);
    assert IsLine(last);
    assert last[|last| - 1] == x[|x| - 1];
    WellFormedPrefix(ls, n - 1);
  }

  /** Stripping whitespace removes any final line feed. */
  lemma {:induction false} StrippedNotTerminated(s: string)
    ensures Strip(s, IsSpace) == [] || !Terminated(Strip(s, IsSpace))
  {
    StripEdges(s, IsSpace);
    assert IsSpace('\n');
  }

  lemma {:induction false} WellFormedPrefix(ls: seq<string>, k: nat)
    requires WellFormed(ls) && k <= |ls|
    ensures WellFormed(ls[..k])
  {
  }

  /** A non-empty text has at least one line. */
  lemma {:induction false} LinesNonEmpty(s: string)
    requires s != []
    ensures |Lines(s)| >= 1
  {
  }

  /** The lines of a text that ends at a line boundary are all terminated. */
  lemma {:induction false} TerminatedLines(s: string)
    requires Terminated(s)
    ensures forall i :: 0 <= i < |Lines(s)| ==> Terminated(Lines(s)[i])
    decreases |s|
  {
    if s != [] {
      var n := LineEnd(s);
      TerminatedLines(s[n..]);
      assert n == |s| ==> s[..n] == s;
    }
  }

  /** `lines[:i] + lines[i+1:]`: the list with position `i` removed, as `del`
      and `list.pop` leave it. */
  function RemoveAt<T>(ls: seq<T>, i: nat): (r: seq<T>)
    requires i < |ls|
    ensures |r| == |ls| - 1
    ensures forall k :: 0 <= k < i ==> r[k] == ls[k]
    ensures forall k :: i <= k < |r| ==> r[k] == ls[k + 1]
  {
    ls[..i] + ls[i + 1..]
  }

  /** Dropping one line keeps a line list well-formed. */
  lemma {:induction false} RemoveAtWellFormed(ls: seq<string>, i: nat)
    requires WellFormed(ls) && i < |ls|
    ensures WellFormed(RemoveAt(ls, i))
  {
    var r := RemoveAt(ls, i);
    forall k | 0 <= k < |r| - 1
      ensures Terminated(r[k])
    {
      if k >= i {
        assert r[k] == ls[k + 1];
      }
    }
  }
}
