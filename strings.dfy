/** The Python `str` operations the numeral reader relies on, over strings
    as sequences of code points: `isspace`, `split()`, `split(sep)`,
    `sep.join`, `strip()`, `startswith`, `find`, `count`, `replace` and the
    `in` substring test. */
module PyStr {

  /** Python's `str.isspace` for one code point. */
  predicate IsSpace(c: char) {
    c == ' ' || ('\t' <= c <= '\r') || ('\U{1c}' <= c <= '\U{1f}')
    || c == '\U{85}' || c == '\U{a0}' || c == '\U{1680}'
    || ('\U{2000}' <= c <= '\U{200a}') || c == '\U{2028}' || c == '\U{2029}'
    || c == '\U{202f}' || c == '\U{205f}' || c == '\U{3000}'
  }

  /** A piece of `split()` output: non-empty and free of whitespace. */
  predicate IsWord(w: string) {
    w != [] && forall i :: 0 <= i < |w| ==> !IsSpace(w[i])
  }

  predicate StartsWith(s: string, prefix: string) {
    |prefix| <= |s| && s[..|prefix|] == prefix
  }

  /** `text[i:i+len(q)] == q` with `i` a real start position. */
  predicate MatchAt(text: string, q: string, i: int) {
    0 <= i && i + |q| <= |text| && text[i..i + |q|] == q
  }

  /** Python's `q in text`. */
  predicate Contains(text: string, q: string) {
    exists i :: 0 <= i <= |text| - |q| && MatchAt(text, q, i)
  }

  /** Python's `text.find(q, start)`: the lowest match at or after `start`, else -1. */
  function Find(text: string, q: string, start: nat): (r: int)
    ensures r == -1 || (start <= r && MatchAt(text, q, r))
    ensures forall i :: start <= i && (r == -1 || i < r) ==> !MatchAt(text, q, i)
    decreases |text| + 1 - start
  {
    if start + |q| > |text| then -1
    else if text[start..start + |q|] == q then start
    else Find(text, q, start + 1)
  }

  lemma FindFromZero(text: string, q: string)
    ensures Find(text, q, 0) != -1 <==> Contains(text, q)
  {
    var r := Find(text, q, 0);
    if r != -1 {
      assert MatchAt(text, q, r);
    }
  }

  /** Python's `text.count(q)`: non-overlapping occurrences, scanning left to
      right; the empty pattern occurs `len(text) + 1` times. */
  function Count(text: string, q: string): (r: nat)
    ensures q == [] ==> r == |text| + 1
    ensures q != [] ==> (r == 0 <==> !Contains(text, q))
    decreases |text|
  {
    if q == [] then |text| + 1
    else
      var i := Find(text, q, 0);
      FindFromZero(text, q);
      if i == -1 then 0 else 1 + Count(text[i + |q|..], q)
  }

  /** Length of the leading run of whitespace. */
  function SpaceRun(s: string): (n: nat)
    ensures n <= |s|
    ensures forall i :: 0 <= i < n ==> IsSpace(s[i])
    ensures n == |s| || !IsSpace(s[n])
  {
    if s == [] || !IsSpace(s[0]) then 0 else 1 + SpaceRun(s[1..])
  }

  /** Length of the leading run of non-whitespace. */
  function WordRun(s: string): (n: nat)
    ensures n <= |s|
    ensures forall i :: 0 <= i < n ==> !IsSpace(s[i])
    ensures n == |s| || IsSpace(s[n])
  {
    if s == [] || IsSpace(s[0]) then 0 else 1 + WordRun(s[1..])
  }

  /** Python's `s.split()`: the maximal whitespace-free runs, in order
      (`SplitWords` and `SplitSpaced` below). */
  function Split(s: string): seq<string>
    decreases |s|
  {
    var k := SpaceRun(s);
    if k == |s| then []
    else
      var n := WordRun(s[k..]);
      [s[k..k + n]] + Split(s[k + n..])
  }

  /** Every piece of `split()` is a non-empty run without whitespace. */
  lemma {:induction false} SplitWords(s: string)
    ensures forall w :: w in Split(s) ==> IsWord(w)
    decreases |s|
  {
    var k := SpaceRun(s);
    if k < |s| {
      var n := WordRun(s[k..]);
      SplitFirstWord(s, k, n);
      FirstWordIsWord(s, k, n);
      SplitWords(s[k + n..]);
    } else {
      SplitAllSpace(s);
    }
  }

  /** The first run after the leading whitespace is a word. */
  lemma {:induction false} FirstWordIsWord(s: string, k: nat, n: nat)
    requires k == SpaceRun(s) < |s| && n == WordRun(s[k..])
    ensures IsWord(s[k..k + n])
  {
    assert s[k..][0] == s[k];
    var w := s[k..k + n];
    forall i | 0 <= i < n ensures !IsSpace(w[i]) {
      assert w[i] == s[k..][i];
    }
  }

  predicate AllSpace(g: string) {
    forall i :: 0 <= i < |g| ==> IsSpace(g[i])
  }

  /** `gaps[0] + ws[0] + gaps[1] + ... + ws[n - 1] + gaps[n]`. */
  function Interleave(gaps: seq<string>, ws: seq<string>): string
    requires |gaps| == |ws| + 1
  {
    if ws == [] then gaps[0] else gaps[0] + ws[0] + Interleave(gaps[1..], ws[1..])
  }

  /** `s` is the words `ws` with runs of whitespace around and between them,
      each run between two words non-empty. */
  predicate SpacedBy(s: string, gaps: seq<string>, ws: seq<string>) {
    && |gaps| == |ws| + 1
    && (forall i :: 0 <= i < |gaps| ==> AllSpace(gaps[i]))
    && (forall i :: 0 < i < |gaps| - 1 ==> gaps[i] != [])
    && s == Interleave(gaps, ws)
  }

  lemma {:induction false} ThreeParts(s: string, a: nat, b: nat)
    requires a <= b <= |s|
    ensures s == s[..a] + s[a..b] + s[b..]
  {
  }

  /** One more word in front, after the whitespace `g0`. */
  lemma {:induction false} SpacedCons(s: string, g0: string, w: string, rest: string, g: seq<string>, ws: seq<string>)
    requires SpacedBy(rest, g, ws) && AllSpace(g0)
    requires ws != [] ==> g[0] != []
    requires s == g0 + w + rest
    ensures SpacedBy(s, [g0] + g, [w] + ws)
  {
    var gaps := [g0] + g;
    assert gaps[1..] == g && ([w] + ws)[1..] == ws;
    forall i | 0 < i < |gaps| - 1 ensures gaps[i] != [] {
      assert gaps[i] == g[i - 1];
    }
    forall i | 0 <= i < |gaps| ensures AllSpace(gaps[i]) {
      if i > 0 {
        assert gaps[i] == g[i - 1];
      }
    }
  }

  /** The leading whitespace of `s` is a run of whitespace. */
  lemma {:induction false} LeadingGap(s: string)
    ensures AllSpace(s[..SpaceRun(s)])
  {
  }

  /** After the first word comes whitespace, or nothing. */
  lemma {:induction false} GapAfterWord(s: string, k: nat, n: nat)
    requires k == SpaceRun(s) < |s| && n == WordRun(s[k..])
    ensures s[k + n..] == [] || SpaceRun(s[k + n..]) >= 1
  {
    if k + n < |s| {
      assert s[k + n..][0] == s[k..][n];
    }
  }

  /** The whitespace runs `split()` cuts away, the first being the
      leading whitespace of `s`. */
  lemma {:induction false} SplitGaps(s: string) returns (gaps: seq<string>)
    ensures SpacedBy(s, gaps, Split(s))
    ensures gaps[0] == s[..SpaceRun(s)]
    decreases |s|
  {
    var k := SpaceRun(s);
    LeadingGap(s);
    if k == |s| {
      assert s[..k] == s;
      gaps := [s];
    } else {
      var n := WordRun(s[k..]);
      var rest := s[k + n..];
      var g := SplitGaps(rest);
      SplitFirstWord(s, k, n);
      ThreeParts(s, k, k + n);
      GapAfterWord(s, k, n);
      SpacedCons(s, s[..k], s[k..k + n], rest, g, Split(rest));
      gaps := [s[..k]] + g;
    }
  }

  /** `split()` gives exactly the maximal whitespace-free runs of `s`, in
      order: `s` is those words with whitespace around and between them,
      and non-empty whitespace between each two. */
  lemma {:induction false} SplitSpaced(s: string)
    ensures exists gaps :: SpacedBy(s, gaps, Split(s))
  {
    var gaps := SplitGaps(s);
  }

  /** Python's `sep.join(ws)`. */
  function Join(sep: string, ws: seq<string>): string
  {
    if ws == [] then [] else if |ws| == 1 then ws[0] else ws[0] + sep + Join(sep, ws[1..])
  }

  /** Index of the first `sep` in `s`, or `|s|`. */
  function IndexOf(s: string, sep: char): (n: nat)
    ensures n <= |s|
    ensures forall i :: 0 <= i < n ==> s[i] != sep
    ensures n == |s| || s[n] == sep
  {
    if s == [] || s[0] == sep then 0 else 1 + IndexOf(s[1..], sep)
  }

  /** Python's `s.split(sep)` for a one-character separator: the pieces between
      separators, empty ones included, so that joining them back gives `s`. */
  function SplitOn(s: string, sep: char): (r: seq<string>)
    ensures |r| >= 1
    ensures forall p :: p in r ==> sep !in p
    ensures Join([sep], r) == s
    decreases |s|
  {
    var n := IndexOf(s, sep);
    if n == |s| then [s]
    else
      var rest := SplitOn(s[n + 1..], sep);
      assert s == s[..n] + [sep] + s[n + 1..];
      [s[..n]] + rest
  }

  /** Text without the separator splits into itself alone. */
  lemma SplitOnWithout(s: string, sep: char)
    requires sep !in s
    ensures SplitOn(s, sep) == [s]
  {
  }

  /** Length of the trailing run of whitespace. */
  function TrailingSpaceRun(s: string): (n: nat)
    ensures n <= |s|
    ensures forall i :: |s| - n <= i < |s| ==> IsSpace(s[i])
    ensures n == |s| || !IsSpace(s[|s| - n - 1])
  {
    if s == [] || !IsSpace(s[|s| - 1]) then 0 else 1 + TrailingSpaceRun(s[..|s| - 1])
  }

  /** `r` is `s[a..a+|r|]` and everything of `s` outside that slice is whitespace. */
  predicate TrimmedAt(s: string, r: string, a: int) {
    && 0 <= a && a + |r| <= |s| && r == s[a..a + |r|]
    && (forall i :: 0 <= i < a ==> IsSpace(s[i]))
    && (forall i :: a + |r| <= i < |s| ==> IsSpace(s[i]))
  }

  /** Python's `s.strip()`: `s` without its leading and trailing whitespace. */
  function Strip(s: string): (r: string)
    ensures r == [] || (!IsSpace(r[0]) && !IsSpace(r[|r| - 1]))
    ensures exists a :: TrimmedAt(s, r, a)
  {
    var a := SpaceRun(s);
    if a == |s| then
      assert TrimmedAt(s, [], 0);
      []
    else
      var t := s[a..];
      var b := TrailingSpaceRun(t);
      var r := t[..|t| - b];
      assert TrimmedAt(s, r, a);
      r
  }

  /** Python's `s.replace(pat, rep)`: non-overlapping occurrences of `pat`,
      found left to right, each replaced by `rep`. */
  function Replace(s: string, pat: string, rep: string): (r: string)
    decreases |s|
  {
    if pat == [] then
      (if s == [] then rep else rep + [s[0]] + Replace(s[1..], pat, rep))
    else if |s| < |pat| then s
    else if s[..|pat|] == pat then rep + Replace(s[|pat|..], pat, rep)
    else [s[0]] + Replace(s[1..], pat, rep)
  }

  /** `Replace` with a non-empty pattern never lengthens the text when the
      replacement is no longer than the pattern. */
  lemma {:induction false} ReplaceNotLonger(s: string, pat: string, rep: string)
    requires pat != [] && |rep| <= |pat|
    ensures |Replace(s, pat, rep)| <= |s|
    decreases |s|
  {
    if |s| < |pat| {
    } else if s[..|pat|] == pat {
      ReplaceNotLonger(s[|pat|..], pat, rep);
    } else {
      ReplaceNotLonger(s[1..], pat, rep);
    }
  }

  lemma {:induction false} WordRunOfJoin(w: string, rest: string)
    requires IsWord(w)
    requires rest == [] || IsSpace(rest[0])
    ensures WordRun(w + rest) == |w|
    decreases |w|
  {
    if |w| > 1 {
      assert (w + rest)[1..] == w[1..] + rest;
      WordRunOfJoin(w[1..], rest);
    } else {
      assert (w + rest)[1..] == rest;
    }
  }

  /** `split()` takes the first word after the leading whitespace, then
      splits the rest. */
  lemma {:induction false} SplitFirstWord(u: string, k: nat, n: nat)
    requires k == SpaceRun(u) < |u| && n == WordRun(u[k..])
    ensures Split(u) == [u[k..k + n]] + Split(u[k + n..])
  {
    SplitUnfold(u);
  }

  lemma {:induction false} SplitUnfold(u: string)
    ensures var k := SpaceRun(u);
            k < |u| ==> var n := WordRun(u[k..]); Split(u) == [u[k..k + n]] + Split(u[k + n..])
  {
  }

  /** Text that is all whitespace splits into nothing. */
  lemma {:induction false} SplitAllSpace(u: string)
    requires SpaceRun(u) == |u|
    ensures Split(u) == []
  {
  }

  lemma {:induction false} SpaceRunBlank(s: string)
    ensures SpaceRun(" " + s) == 1 + SpaceRun(s)
  {
    assert (" " + s)[1..] == s;
  }

  lemma {:induction false} SliceBlank(s: string, a: nat, b: nat)
    requires a <= b <= |s|
    ensures (" " + s)[1 + a..1 + b] == s[a..b]
    ensures (" " + s)[1 + a..] == s[a..]
  {
  }

  /** A leading blank does not change what `split()` gives. */
  lemma {:induction false} SplitSkipsBlank(s: string)
    ensures Split(" " + s) == Split(s)
  {
    var k := SpaceRun(s);
    SpaceRunBlank(s);
    if k < |s| {
      var n := WordRun(s[k..]);
      SliceBlank(s, k, k + n);
      SliceBlank(s, k + n, k + n);
      SplitFirstWord(" " + s, 1 + k, n);
      SplitFirstWord(s, k, n);
    } else {
      SplitAllSpace(" " + s);
      SplitAllSpace(s);
    }
  }

  /** The pieces of `w + " " + rest`. */
  lemma {:induction false} JoinedParts(w: string, rest: string)
    ensures (w + " " + rest)[..|w|] == w
    ensures (w + " " + rest)[|w|..] == " " + rest
    ensures w + " " + rest == w + (" " + rest)
  {
  }

  /** A single word splits into itself. */
  lemma {:induction false} SplitOneWord(w: string)
    requires IsWord(w)
    ensures Split(w) == [w]
  {
    assert SpaceRun(w) == 0;
    WordRunOfJoin(w, []);
    assert w + [] == w;
    SplitFirstWord(w, 0, |w|);
    assert w[|w|..] == [];
    SplitAllSpace([]);
    assert w[0..|w|] == w;
  }

  /** A word, a blank and more text split into the word and the split of the rest. */
  lemma {:induction false} SplitWordThen(w: string, rest: string)
    requires IsWord(w)
    ensures Split(w + " " + rest) == [w] + Split(rest)
  {
    JoinedParts(w, rest);
    assert (w + " " + rest)[0] == w[0];
    assert SpaceRun(w + " " + rest) == 0;
    WordRunOfJoin(w, " " + rest);
    SplitFirstWord(w + " " + rest, 0, |w|);
    SplitSkipsBlank(rest);
  }

  /** Splitting a space-joined list of words gives the words back: the pieces
      `split()` produces and `" ".join` consumes are the same. */
  lemma {:induction false} SplitJoin(ws: seq<string>)
    requires forall w :: w in ws ==> IsWord(w)
    ensures Split(Join(" ", ws)) == ws
  {
    if ws == [] {
    } else if |ws| == 1 {
      assert ws[0] in ws;
      SplitOneWord(ws[0]);
    } else {
      assert ws[0] in ws;
      assert forall v :: v in ws[1..] ==> v in ws;
      SplitWordThen(ws[0], Join(" ", ws[1..]));
      SplitJoin(ws[1..]);
      assert ws == [ws[0]] + ws[1..];
    }
  }

}
