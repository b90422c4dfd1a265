/** The string primitives the notebook relies on, over ASCII: Python's
    `str.isspace`, `str.lower`, `in` on strings, `str.endswith`,
    `str.strip`/`str.lstrip` and `str.split()`. */
module Text {

  /** `str.isspace()` restricted to ASCII: tab, line feed, vertical tab,
      form feed, carriage return, the four information separators, space. */
  predicate IsSpace(c: char) {
    (9 <= c as int <= 13) || (28 <= c as int <= 32)
  }

  predicate NotSpace(c: char) {
    !IsSpace(c)
  }

  predicate IsUpper(c: char) {
    'A' <= c <= 'Z'
  }

  function LowerChar(c: char): char {
    if IsUpper(c) then (c as int + 32) as char else c
  }

  /** ASCII lower-casing: each upper-case letter becomes the same letter in
      lower case, and every other character is kept. */
  function Lower(s: string): (r: string)
    ensures |r| == |s|
    ensures forall i :: 0 <= i < |r| ==> !IsUpper(r[i])
    ensures forall i :: 0 <= i < |r| ==> r[i] == s[i] || IsUpper(s[i])
    ensures forall i :: 0 <= i < |r| ==> IsUpper(s[i]) ==> 'a' <= r[i] <= 'z'
    ensures forall i :: 0 <= i < |r| ==> IsUpper(s[i]) ==> r[i] as int - 'a' as int == s[i] as int - 'A' as int
  {
    seq(|s|, i requires 0 <= i < |s| => LowerChar(s[i]))
  }

  lemma {:induction false} LowerIdempotent(s: string)
    ensures Lower(Lower(s)) == Lower(s)
  {
  }

  /** Lower-casing turns no character into whitespace. */
  lemma {:induction false} LowerKeepsNotSpace(s: string)
    requires forall k :: 0 <= k < |s| ==> NotSpace(s[k])
    ensures forall k :: 0 <= k < |Lower(s)| ==> NotSpace(Lower(s)[k])
  {
  }

  lemma {:induction false} LowerAppend(a: string, b: string)
    ensures Lower(a + b) == Lower(a) + Lower(b)
  {
  }

  predicate StartsWith(s: string, p: string) {
    |p| <= |s| && s[..|p|] == p
  }

  predicate EndsWith(s: string, p: string) {
    |p| <= |s| && s[|s| - |p|..] == p
  }

  /** `p` occurs in `s` starting at position `i`. */
  ghost predicate OccursAt(s: string, p: string, i: int) {
    0 <= i && i + |p| <= |s| && s[i..i + |p|] == p
  }

  lemma {:induction false} OccursAtShift(s: string, p: string, i: int)
    requires |s| > 0 && 0 <= i
    ensures OccursAt(s[1..], p, i) <==> OccursAt(s, p, i + 1)
  {
    if 0 <= i && i + |p| <= |s| - 1 {
      assert s[1..][i..i + |p|] == s[i + 1..i + 1 + |p|];
    }
  }

  /** Python's `p in s`: `p` is a contiguous substring of `s`. */
  function Contains(s: string, p: string): (r: bool)
    ensures r <==> exists i :: OccursAt(s, p, i)
    decreases |s|
  {
    if |s| < |p| then
      false
    else if s[..|p|] == p then
      assert OccursAt(s, p, 0);
      true
    else
      var r := Contains(s[1..], p);
      assert r ==> exists i :: OccursAt(s, p, i) by {
        if r {
          var i :| OccursAt(s[1..], p, i);
          OccursAtShift(s, p, i);
        }
      }
      assert (exists i :: OccursAt(s, p, i)) ==> r by {
        if exists i :: OccursAt(s, p, i) {
          var i :| OccursAt(s, p, i);
          assert i != 0;
          OccursAtShift(s, p, i - 1);
        }
      }
      r
  }

  /** A substring of `s` is still a substring once `s` is extended. */
  lemma {:induction false} ContainsExtend(s: string, t: string, p: string)
    requires Contains(s, p)
    ensures Contains(s + t, p)
  {
    var i :| OccursAt(s, p, i);
    assert (s + t)[i..i + |p|] == s[i..i + |p|];
    assert OccursAt(s + t, p, i);
  }

  /** Length of the longest prefix of `s` whose characters all satisfy `keep`. */
  function LeadingRun(s: string, keep: char -> bool): (n: nat)
    ensures n <= |s|
    ensures forall k :: 0 <= k < n ==> keep(s[k])
    ensures n < |s| ==> !keep(s[n])
    decreases |s|
  {
    if s == [] || !keep(s[0]) then 0 else 1 + LeadingRun(s[1..], keep)
  }

  /** Length of the longest suffix of `s` whose characters all satisfy `keep`. */
  function TrailingRun(s: string, keep: char -> bool): (n: nat)
    ensures n <= |s|
    ensures forall k :: |s| - n <= k < |s| ==> keep(s[k])
    ensures n < |s| ==> !keep(s[|s| - n - 1])
    decreases |s|
  {
    if s == [] || !keep(s[|s| - 1]) then 0 else 1 + TrailingRun(s[..|s| - 1], keep)
  }

  /** The two properties above pin a leading run down uniquely. */
  lemma {:induction false} LeadingRunUnique(s: string, keep: char -> bool, n: nat)
    requires n <= |s|
    requires forall k :: 0 <= k < n ==> keep(s[k])
    requires n < |s| ==> !keep(s[n])
    ensures LeadingRun(s, keep) == n
  {
  }

  lemma {:induction false} TrailingRunUnique(s: string, keep: char -> bool, n: nat)
    requires n <= |s|
    requires forall k :: |s| - n <= k < |s| ==> keep(s[k])
    requires n < |s| ==> !keep(s[|s| - n - 1])
    ensures TrailingRun(s, keep) == n
  {
  }

  /** Every character of `s` satisfies `drop`. */
  predicate AllDropped(s: string, drop: char -> bool) {
    forall k :: 0 <= k < |s| ==> drop(s[k])
  }

  /** Python's `s.strip(chars)`: remove the longest prefix and suffix made of
      characters satisfying `drop`. */
  function Strip(s: string, drop: char -> bool): string {
    var i := LeadingRun(s, drop);
    var t := s[i..];
    s[i..i + |t| - TrailingRun(t, drop)]
  }

  /** What a strip leaves: a middle slice of the text with only droppable
      characters cut on either side. */
  lemma {:induction false} StripShape(s: string, drop: char -> bool)
    ensures exists i, j :: 0 <= i <= j <= |s| && Strip(s, drop) == s[i..j]
                          && AllDropped(s[..i], drop) && AllDropped(s[j..], drop)
  {
    var i := LeadingRun(s, drop);
    var t := s[i..];
    var tr := TrailingRun(t, drop);
    var j := |s| - tr;
    StripFrom(s, drop, i, tr);
    assert AllDropped(s[..i], drop) by {
      forall k | 0 <= k < i ensures drop(s[..i][k]) {
        assert s[..i][k] == s[k];
      }
    }
    assert AllDropped(s[j..], drop) by {
      forall k | 0 <= k < tr ensures drop(s[j..][k]) {
        assert s[j..][k] == t[|t| - tr + k];
      }
    }
    assert 0 <= i <= j <= |s| && Strip(s, drop) == s[i..j];
  }

  /** Nothing droppable is left at either edge of a strip. */
  lemma {:induction false} StripEdges(s: string, drop: char -> bool)
    ensures Strip(s, drop) == [] || (!drop(Strip(s, drop)[0]) && !drop(Strip(s, drop)[|Strip(s, drop)| - 1]))
  {
    var i := LeadingRun(s, drop);
    var t := s[i..];
    var tr := TrailingRun(t, drop);
    StripFrom(s, drop, i, tr);
    var r := s[i..|s| - tr];
    if r != [] {
      assert r[0] == s[i];
      assert r[|r| - 1] == t[|t| - tr - 1];
    }
  }

  /** A strip is no longer than the text and keeps only its characters. */
  lemma {:induction false} StripWithin(s: string, drop: char -> bool)
    ensures |Strip(s, drop)| <= |s|
    ensures forall k :: 0 <= k < |Strip(s, drop)| ==> Strip(s, drop)[k] in s
  {
    var i := LeadingRun(s, drop);
    var t := s[i..];
    var j := i + |t| - TrailingRun(t, drop);
    forall k | 0 <= k < |Strip(s, drop)| ensures Strip(s, drop)[k] in s {
      assert Strip(s, drop)[k] == s[i + k];
    }
  }

  /** A text that neither starts nor ends with a droppable character is
      left as it is. */
  lemma {:induction false} StripUnchanged(s: string, drop: char -> bool)
    requires s == [] || (!drop(s[0]) && !drop(s[|s| - 1]))
    ensures Strip(s, drop) == s
  {
    if s != [] {
      LeadingRunUnique(s, drop, 0);
      assert s[0..] == s;
      TrailingRunUnique(s, drop, 0);
    }
  }

  lemma {:induction false} TrailingRunSnoc(t: string, c: char, drop: char -> bool)
    requires drop(c)
    ensures TrailingRun(t + [c], drop) == 1 + TrailingRun(t, drop)
  {
    assert (t + [c])[..|t|] == t;
  }

  lemma {:induction false} SnocSlice(s: string, c: char, i: nat, j: nat)
    requires i <= j <= |s|
    ensures (s + [c])[i..j] == s[i..j]
  {
  }

  /** `Strip` spelled out with the leading run given. */
  lemma {:induction false} StripFrom(s: string, drop: char -> bool, i: nat, tr: nat)
    requires i == LeadingRun(s, drop) && tr == TrailingRun(s[i..], drop)
    ensures Strip(s, drop) == s[i..|s| - tr]
  {
  }

  /** A droppable character at the end makes no difference to the strip. */
  lemma {:induction false} StripDropLast(s: string, c: char, drop: char -> bool)
    requires drop(c)
    ensures Strip(s + [c], drop) == Strip(s, drop)
  {
    if LeadingRun(s, drop) < |s| {
      StripDropLastKept(s, c, drop);
    } else {
      StripDropLastAllDropped(s, c, drop);
    }
  }

  lemma {:induction false} StripDropLastKept(s: string, c: char, drop: char -> bool)
    requires drop(c) && LeadingRun(s, drop) < |s|
    ensures Strip(s + [c], drop) == Strip(s, drop)
  {
    var s' := s + [c];
    var i := LeadingRun(s, drop);
    assert s'[i] == s[i];
    LeadingRunUnique(s', drop, i);
    var t := s[i..];
    assert s'[i..] == t + [c];
    TrailingRunSnoc(t, c, drop);
    var tr := TrailingRun(t, drop);
    StripFrom(s, drop, i, tr);
    StripFrom(s', drop, i, tr + 1);
    assert |s'| - (tr + 1) == |s| - tr;
    SnocSlice(s, c, i, |s| - tr);
  }

  lemma {:induction false} StripDropLastAllDropped(s: string, c: char, drop: char -> bool)
    requires drop(c) && LeadingRun(s, drop) == |s|
    ensures Strip(s + [c], drop) == Strip(s, drop)
  {
    var s' := s + [c];
    assert forall k :: 0 <= k < |s'| ==> drop(s'[k]);
    LeadingRunUnique(s', drop, |s'|);
    assert Strip(s', drop) == [] == Strip(s, drop);
  }

  /** Stripping twice is stripping once. */
  lemma {:induction false} StripIdempotent(s: string, drop: char -> bool)
    ensures Strip(Strip(s, drop), drop) == Strip(s, drop)
  {
    StripEdges(s, drop);
    StripUnchanged(Strip(s, drop), drop);
  }

  /** Python's `s.lstrip(c)` for a single character `c`. */
  function LStrip(s: string, c: char): (r: string)
    ensures exists i :: 0 <= i <= |s| && r == s[i..] && forall k :: 0 <= k < i ==> s[k] == c
    ensures r == [] || r[0] != c
    decreases |s|
  {
    if s != [] && s[0] == c then
      var r := LStrip(s[1..], c);
      ghost var i :| 0 <= i <= |s[1..]| && r == s[1..][i..] && forall k :: 0 <= k < i ==> s[1..][k] == c;
      assert r == s[i + 1..];
      r
    else
      assert s == s[0..];
      s
  }

  /** A text that does not start with `c` is left as it is. */
  lemma {:induction false} LStripUnchanged(s: string, c: char)
    requires s == [] || s[0] != c
    ensures LStrip(s, c) == s
  {
  }

  /** A whitespace-free, non-empty token, as `str.split()` yields. */
  predicate IsWord(t: string) {
    t != [] && forall k :: 0 <= k < |t| ==> NotSpace(t[k])
  }

  /** Python's `s.split()` with no argument: the maximal runs of
      non-whitespace characters, in order. */
  function Tokens(s: string): (ts: seq<string>)
    ensures forall t :: t in ts ==> IsWord(t)
    decreases |s|
  {
    if s == [] then
      []
    else if IsSpace(s[0]) then
      Tokens(s[1..])
    else
      var n := LeadingRun(s, NotSpace);
      [s[..n]] + Tokens(s[n..])
  }

  /** Every character of `g` is whitespace. */
  predicate AllSpace(g: string) {
    forall k :: 0 <= k < |g| ==> IsSpace(g[k])
  }

  /** `gaps[0] + ts[0] + gaps[1] + ... + ts[n-1] + gaps[n]`. */
  function Spread(gaps: seq<string>, ts: seq<string>): string
    requires |gaps| == |ts| + 1
    decreases ts
  {
    if ts == [] then gaps[0] else gaps[0] + ts[0] + Spread(gaps[1..], ts[1..])
  }

  /** `s` is the words `ts` in order, with whitespace around them and at
      least one whitespace character between two neighbouring words. */
  ghost predicate Separates(gaps: seq<string>, ts: seq<string>, s: string) {
    && |gaps| == |ts| + 1
    && (forall i :: 0 <= i < |gaps| ==> AllSpace(gaps[i]))
    && (forall i :: 0 < i < |ts| ==> gaps[i] != [])
    && (forall i :: 0 <= i < |ts| ==> IsWord(ts[i]))
    && s == Spread(gaps, ts)
  }

  /** Leading whitespace yields no token. */
  lemma {:induction false} TokensAfterSpace(g: string, x: string)
    requires AllSpace(g)
    ensures Tokens(g + x) == Tokens(x)
    decreases |g|
  {
    if g != [] {
      assert (g + x)[1..] == g[1..] + x;
      TokensAfterSpace(g[1..], x);
    } else {
      assert g + x == x;
    }
  }

  /** A word followed by whitespace (or by nothing) is one token. */
  lemma {:induction false} TokensAfterWord(t: string, x: string)
    requires IsWord(t) && (x == [] || IsSpace(x[0]))
    ensures Tokens(t + x) == [t] + Tokens(x)
  {
    var s := t + x;
    assert |t| < |s| ==> s[|t|] == x[0];
    LeadingRunUnique(s, NotSpace, |t|);
    assert s[..|t|] == t && s[|t|..] == x;
  }

  /** A spread of words splits back into exactly those words. */
  lemma {:induction false} TokensOfSpread(gaps: seq<string>, ts: seq<string>, s: string)
    requires Separates(gaps, ts, s)
    ensures Tokens(s) == ts
    decreases ts
  {
    if ts == [] {
      TokensAfterSpace(gaps[0], []);
      assert gaps[0] + [] == gaps[0];
    } else {
      var rest := Spread(gaps[1..], ts[1..]);
      assert Separates(gaps[1..], ts[1..], rest) by {
        forall i | 0 < i < |ts[1..]| ensures gaps[1..][i] != [] {
          assert gaps[1..][i] == gaps[i + 1];
        }
      }
      TokensOfSpread(gaps[1..], ts[1..], rest);
      assert rest == [] || IsSpace(rest[0]) by {
        if |ts| > 1 {
          assert gaps[1] != [] && AllSpace(gaps[1]);
          assert rest == gaps[1] + (ts[1] + Spread(gaps[2..], ts[2..]));
          assert rest[0] == gaps[1][0];
        } else {
          assert rest == gaps[1];
        }
      }
      assert IsWord(ts[0]);
      TokensAfterWord(ts[0], rest);
      assert s == gaps[0] + (ts[0] + rest);
      TokensAfterSpace(gaps[0], ts[0] + rest);
      assert ts == [ts[0]] + ts[1..];
    }
  }

  /** One more whitespace character in front widens the first gap. */
  lemma {:induction false} SpaceGap(c: char, x: string, g: seq<string>, ts: seq<string>)
    requires IsSpace(c) && Separates(g, ts, x)
    ensures Separates([[c] + g[0]] + g[1..], ts, [c] + x)
  {
    var gaps := [[c] + g[0]] + g[1..];
    if ts == [] {
      assert Spread(gaps, ts) == [c] + g[0];
    } else {
      assert gaps[1..] == g[1..];
      assert Spread(gaps, ts) == ([c] + g[0]) + ts[0] + Spread(g[1..], ts[1..]);
      assert x == g[0] + ts[0] + Spread(g[1..], ts[1..]);
    }
    forall i | 0 < i < |gaps| ensures gaps[i] == g[i] {
    }
  }

  /** A word in front, followed by whitespace or nothing, is a new first
      token behind an empty gap. */
  lemma {:induction false} WordGap(t: string, x: string, g: seq<string>, ts: seq<string>)
    requires IsWord(t) && Separates(g, ts, x)
    requires x != [] ==> IsSpace(x[0]) && g[0] != []
    ensures Separates([[]] + g, [t] + ts, t + x)
  {
    var gaps := [[]] + g;
    var ws := [t] + ts;
    assert gaps[1..] == g && ws[1..] == ts;
    assert Spread(gaps, ws) == [] + t + Spread(g, ts);
    forall i | 0 < i < |ws| ensures gaps[i] != [] && IsWord(ws[i]) {
      assert gaps[i] == g[i - 1] && ws[i] == ts[i - 1];
      if i == 1 {
        assert x == g[0] + ts[0] + Spread(g[1..], ts[1..]);
        assert |x| >= |ts[0]| > 0;
      }
    }
    forall i | 0 < i < |gaps| ensures AllSpace(gaps[i]) {
      assert gaps[i] == g[i - 1];
    }
  }

  /** The gaps around the tokens of `s`. */
  lemma {:induction false} TokenGaps(s: string) returns (gaps: seq<string>)
    ensures Separates(gaps, Tokens(s), s)
    ensures s != [] && IsSpace(s[0]) ==> gaps[0] != []
    decreases |s|
  {
    if s == [] {
      gaps := [[]];
    } else if IsSpace(s[0]) {
      var g := TokenGaps(s[1..]);
      SpaceGap(s[0], s[1..], g, Tokens(s[1..]));
      assert [s[0]] + s[1..] == s;
      gaps := [[s[0]] + g[0]] + g[1..];
    } else {
      var n := LeadingRun(s, NotSpace);
      var g := TokenGaps(s[n..]);
      WordGap(s[..n], s[n..], g, Tokens(s[n..]));
      assert s[..n] + s[n..] == s;
      gaps := [[]] + g;
    }
  }

  /** `split()` characterised: `ts` are the tokens of `s` exactly when `s` is
      those words in order, separated by whitespace. */
  lemma {:induction false} TokensExact(s: string, ts: seq<string>)
    ensures Tokens(s) == ts <==> exists gaps :: Separates(gaps, ts, s)
  {
    if Tokens(s) == ts {
      var gaps := TokenGaps(s);
    }
    if exists gaps :: Separates(gaps, ts, s) {
      var gaps :| Separates(gaps, ts, s);
      TokensOfSpread(gaps, ts, s);
    }
  }
}
