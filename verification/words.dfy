/** Word statistics: the line total, the word-frequency table built from
    whitespace tokens, and the most frequent word. */
module WordStats {
  import opened Text
  import opened Corpus
  import opened Scanning

  /** The characters the categorised application strips from token edges. */
  predicate IsEdgePunct(c: char) {
    c == '#' || c == '.' || c == ',' || c == '!' || c == '?'
  }

  /** The categorised application strips edge punctuation before counting;
      the flat one only lower-cases. */
  datatype Cleaning = StripPunctuation | KeepPunctuation

  function Clean(cleaning: Cleaning, t: string): string {
    match cleaning
    case StripPunctuation => Lower(Strip(t, IsEdgePunct))
    case KeepPunctuation => Lower(t)
  }

  /** Whether a cleaned token is counted: the categorised application skips
      tokens that were nothing but punctuation. */
  predicate Counted(cleaning: Cleaning, w: string) {
    cleaning == KeepPunctuation || w != []
  }

  /** What can appear as a key of the frequency table. */
  predicate IsCountedWord(cleaning: Cleaning, w: string) {
    && IsWord(w)
    && Lower(w) == w
    && (cleaning == StripPunctuation ==> !IsEdgePunct(w[0]) && !IsEdgePunct(w[|w| - 1]))
  }

  /** Lower-casing changes only letters, so a text without punctuation at
      its edges keeps none there. */
  lemma {:induction false} LowerKeepsEdges(s: string)
    requires s != [] && !IsEdgePunct(s[0]) && !IsEdgePunct(s[|s| - 1])
    ensures !IsEdgePunct(Lower(s)[0]) && !IsEdgePunct(Lower(s)[|s| - 1])
  {
  }

  lemma {:induction false} CleanIsCountedWord(cleaning: Cleaning, t: string)
    requires IsWord(t) && Counted(cleaning, Clean(cleaning, t))
    ensures IsCountedWord(cleaning, Clean(cleaning, t))
  {
    var s := if cleaning == StripPunctuation then Strip(t, IsEdgePunct) else t;
    assert Clean(cleaning, t) == Lower(s);
    if cleaning == StripPunctuation {
      StripWithin(t, IsEdgePunct);
      StripEdges(t, IsEdgePunct);
      assert forall c :: c in t ==> NotSpace(c);
    }
    assert forall k :: 0 <= k < |s| ==> NotSpace(s[k]);
    LowerKeepsNotSpace(s);
    LowerIdempotent(s);
    if cleaning == StripPunctuation && s != [] {
      LowerKeepsEdges(s);
    }
  }

  /** The words a sequence of tokens contributes, in order. */
  function TokenWords(cleaning: Cleaning, ts: seq<string>): (ws: seq<string>)
    requires forall t :: t in ts ==> IsWord(t)
    ensures forall w :: w in ws ==> IsCountedWord(cleaning, w)
    ensures forall w :: w in ws <==> exists t :: t in ts && w == Clean(cleaning, t) && Counted(cleaning, w)
  {
    if ts == [] then []
    else
      var w := Clean(cleaning, ts[0]);
      assert Counted(cleaning, w) ==> IsCountedWord(cleaning, w) by {
        if Counted(cleaning, w) {
          CleanIsCountedWord(cleaning, ts[0]);
        }
      }
      var rest := TokenWords(cleaning, ts[1..]);
      assert forall t :: t in ts <==> t == ts[0] || t in ts[1..] by {
        assert ts == [ts[0]] + ts[1..];
      }
      (if Counted(cleaning, w) then [w] else []) + rest
  }

  /** Every token, cleaned, whether counted or not. */
  function CleanAll(cleaning: Cleaning, ts: seq<string>): (cs: seq<string>)
    ensures |cs| == |ts|
    ensures forall i :: 0 <= i < |ts| ==> cs[i] == Clean(cleaning, ts[i])
  {
    if ts == [] then [] else [Clean(cleaning, ts[0])] + CleanAll(cleaning, ts[1..])
  }

  /** The first token contributes its cleaned word, if counted, in front. */
  lemma {:induction false} TokenWordsCons(cleaning: Cleaning, ts: seq<string>)
    requires ts != [] && forall t :: t in ts ==> IsWord(t)
    ensures forall t :: t in ts[1..] ==> IsWord(t)
    ensures TokenWords(cleaning, ts)
         == (if Counted(cleaning, Clean(cleaning, ts[0])) then [Clean(cleaning, ts[0])] else [])
            + TokenWords(cleaning, ts[1..])
  {
    assert forall t :: t in ts[1..] ==> t in ts;
  }

  /** A word occurs among a line's counted words exactly as often as tokens
      clean to it (and never, when such a word is not counted). */
  lemma {:induction false} TokenWordsCount(cleaning: Cleaning, ts: seq<string>, w: string)
    requires forall t :: t in ts ==> IsWord(t)
    ensures multiset(TokenWords(cleaning, ts))[w]
         == if Counted(cleaning, w) then multiset(CleanAll(cleaning, ts))[w] else 0
  {
    if ts != [] {
      TokenWordsCons(cleaning, ts);
      TokenWordsCount(cleaning, ts[1..], w);
      var w0 := Clean(cleaning, ts[0]);
      var head: seq<string> := if Counted(cleaning, w0) then [w0] else [];
      var rest := TokenWords(cleaning, ts[1..]);
      var cleaned := CleanAll(cleaning, ts[1..]);
      assert multiset(head + rest) == multiset(head) + multiset(rest);
      assert multiset([w0] + cleaned) == multiset([w0]) + multiset(cleaned);
    }
  }

  /** The words of every selected line, in scan order. */
  function EntryWords(cleaning: Cleaning, es: seq<Entry>): (ws: seq<string>)
    ensures forall w :: w in ws ==> IsCountedWord(cleaning, w)
  {
    if es == [] then [] else TokenWords(cleaning, Tokens(es[0].text)) + EntryWords(cleaning, es[1..])
  }

  /** The frequency table, filled word by word as the loop does. */
  function CountWords(ws: seq<string>): (m: map<string, nat>)
    ensures forall w :: w in m <==> w in ws
    ensures forall w :: w in m ==> m[w] == multiset(ws)[w]
  {
    if ws == [] then map[]
    else
      var init := ws[..|ws| - 1];
      var w := ws[|ws| - 1];
      var m := CountWords(init);
      assert ws == init + [w];
      assert multiset(ws) == multiset(init) + multiset{w};
      m[w := (if w in m then m[w] else 0) + 1]
  }

  /** A word of `ws` whose count is the largest; the earliest one on ties. */
  function ArgMax(ws: seq<string>, m: map<string, nat>): (r: string)
    requires ws != []
    requires forall w :: w in ws ==> w in m
    ensures r in ws
    ensures forall v :: v in ws ==> m[v] <= m[r]
  {
    if |ws| == 1 then
      ws[0]
    else
      var b := ArgMax(ws[1..], m);
      assert forall v :: v in ws ==> v == ws[0] || v in ws[1..] by {
        assert ws == [ws[0]] + ws[1..];
      }
      if m[ws[0]] >= m[b] then ws[0] else b
  }

  /** `max(table, key=table.get)` when the table is non-empty, `none` otherwise. */
  function MostUsed(ws: seq<string>, none: string): (r: string)
    ensures ws == [] ==> r == none
    ensures ws != [] ==> r in CountWords(ws)
    ensures ws != [] ==> forall v :: v in CountWords(ws) ==> CountWords(ws)[v] <= CountWords(ws)[r]
  {
    if ws == [] then none else ArgMax(ws, CountWords(ws))
  }

  datatype Stats = Stats(total: nat, mostUsed: string)

  /** The words the statistics count: every counted token of every line of
      every `.txt` file. */
  function ShelfWords(shelf: Shelf, cleaning: Cleaning): seq<string> {
    EntryWords(cleaning, Scan(shelf, Every))
  }

  /** The statistics dialog: the total is the number of lines of all `.txt`
      files; the most used word is a counted word of maximal frequency, or
      `none` when nothing was counted (`none` being no counted word, the two
      cases cannot be confused). */
  function ShelfStats(shelf: Shelf, cleaning: Cleaning, none: string): (s: Stats)
    requires !IsCountedWord(cleaning, none)
    ensures s.total == ShelfTotal(shelf)
    ensures s.mostUsed == none <==> ShelfWords(shelf, cleaning) == []
    ensures s.mostUsed != none ==> IsCountedWord(cleaning, s.mostUsed)
    ensures s.mostUsed != none ==>
      var m := CountWords(ShelfWords(shelf, cleaning));
      s.mostUsed in m && forall v :: v in m ==> m[v] <= m[s.mostUsed]
  {
    var es := Scan(shelf, Every);
    ScanEveryCount(shelf);
    Stats(|es|, MostUsed(EntryWords(cleaning, es), none))
  }
}
