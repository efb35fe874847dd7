/** The parts of Python's built-in `str` and `list` behaviour that the document
    utilities rely on: `str.split()` with no separator, `' '.join`,
    `str.endswith` and slicing with a step of one, written as functions over
    Dafny sequences. */
module PyBuiltins {

  /** Python's `str.isspace` for a single character: the characters that
      `str.split()` with no separator treats as separators. */
  predicate IsSpace(c: char) {
    || ('\t' <= c <= '\r')
    || ('\U{1C}' <= c <= '\U{1F}')
    || c == ' '
    || c == '\U{85}'
    || c == '\U{A0}'
    || c == '\U{1680}'
    || ('\U{2000}' <= c <= '\U{200A}')
    || c == '\U{2028}'
    || c == '\U{2029}'
    || c == '\U{202F}'
    || c == '\U{205F}'
    || c == '\U{3000}'
  }

  /** A word as `str.split()` produces it: non-empty, with no whitespace. */
  predicate IsWord(w: string) {
    |w| > 0 && forall i :: 0 <= i < |w| ==> !IsSpace(w[i])
  }

  predicate AllWords(ws: seq<string>) {
    forall i :: 0 <= i < |ws| ==> IsWord(ws[i])
  }

  predicate AllSpace(s: string) {
    forall i :: 0 <= i < |s| ==> IsSpace(s[i])
  }

  /** Length of the run of non-whitespace characters that starts `s`. */
  function WordLength(s: string): (n: nat)
    ensures n <= |s|
    ensures forall i :: 0 <= i < n ==> !IsSpace(s[i])
    ensures n < |s| ==> IsSpace(s[n])
  {
    if s == [] || IsSpace(s[0]) then 0 else 1 + WordLength(s[1..])
  }

  /** `s.split()`: the maximal runs of non-whitespace characters, in order;
      leading, trailing and repeated whitespace produce no empty words. */
  function Split(s: string): (words: seq<string>)
    ensures AllWords(words)
    ensures |words| <= |s|
    decreases |s|
  {
    if s == [] then []
    else if IsSpace(s[0]) then Split(s[1..])
    else
      var n := WordLength(s);
      [s[..n]] + Split(s[n..])
  }

  /** `' '.join(ws)`: the strings of `ws` separated by single spaces. */
  function JoinWords(ws: seq<string>): string
  {
    if ws == [] then ""
    else if |ws| == 1 then ws[0]
    else ws[0] + " " + JoinWords(ws[1..])
  }

  /** `' '.join(ws)` is the strings of `ws` with one character between
      neighbours: as long as all of them together plus `|ws| - 1`, starting
      with the first and ending with the last; no strings give `""`. */
  lemma {:induction false} JoinWordsLayout(ws: seq<string>)
    ensures ws == [] ==> JoinWords(ws) == ""
    ensures ws != [] ==> |JoinWords(ws)| == |Concat(ws)| + |ws| - 1
    ensures ws != [] ==> |ws[0]| <= |JoinWords(ws)| && JoinWords(ws)[..|ws[0]|] == ws[0]
    ensures ws != [] ==> EndsWith(JoinWords(ws), ws[|ws| - 1])
  {
    if ws != [] {
      ConcatCons(ws);
      if |ws| > 1 {
        JoinWordsLayout(ws[1..]);
      }
    }
  }

  /** The strings of `ss` concatenated in order, as repeated `+=` builds it:
      as long as all of them together, starting with the first and ending
      with the last. */
  function Concat(ss: seq<string>): (r: string)
    ensures ss == [] ==> r == ""
    ensures ss != [] ==> |ss[0]| <= |r| && r[..|ss[0]|] == ss[0]
    ensures ss != [] ==> EndsWith(r, ss[|ss| - 1])
  {
    if ss == [] then "" else Concat(ss[..|ss| - 1]) + ss[|ss| - 1]
  }

  /** The characters of `s` that are not whitespace, in order. */
  function NonSpace(s: string): string
  {
    if s == [] then ""
    else (if IsSpace(s[0]) then "" else [s[0]]) + NonSpace(s[1..])
  }

  /** `s.endswith(suffix)`. */
  predicate EndsWith(s: string, suffix: string) {
    |suffix| <= |s| && s[|s| - |suffix|..] == suffix
  }

  /** How Python turns a slice bound into a position in a list of length `n`:
      a negative bound counts from the end, and the result is clamped to
      `[0, n]`. */
  function SliceBound(x: int, n: nat): (b: nat)
    ensures b <= n
    ensures 0 <= x ==> b == if x <= n then x else n
  {
    if x < 0 then (if x + n < 0 then 0 else x + n)
    else if x > n then n
    else x
  }

  /** `a[i:j]` for a Python list `a`. */
  function Slice<T>(a: seq<T>, i: int, j: int): (r: seq<T>)
    ensures |r| <= |a|
    ensures 0 <= i <= |a| && i <= j ==>
              r == a[i..if j <= |a| then j else |a|]
  {
    var lo, hi := SliceBound(i, |a|), SliceBound(j, |a|);
    if lo <= hi then a[lo..hi] else []
  }

  // ---------------------------------------------------------------------
  // Lemmas about split and join
  // ---------------------------------------------------------------------

  /** A word followed by whitespace (or by nothing) is read as that word. */
  lemma {:induction false} WordLengthOfWord(w: string, t: string)
    requires IsWord(w)
    requires t == [] || IsSpace(t[0])
    ensures WordLength(w + t) == |w|
  {
    if |w| > 1 {
      assert (w + t)[1..] == w[1..] + t;
      WordLengthOfWord(w[1..], t);
    } else {
      assert (w + t)[1..] == t;
    }
  }

  /** Splitting a word followed by whitespace gives the word, then the
      split of the rest. */
  lemma SplitWordThen(w: string, t: string)
    requires IsWord(w)
    requires t == [] || IsSpace(t[0])
    ensures Split(w + t) == [w] + Split(t)
  {
    WordLengthOfWord(w, t);
    assert (w + t)[..|w|] == w;
    assert (w + t)[|w|..] == t;
  }

  /** Round trip: splitting words joined by single spaces gives the words
      back. */
  lemma {:induction false} SplitJoin(ws: seq<string>)
    requires AllWords(ws)
    ensures Split(JoinWords(ws)) == ws
  {
    if |ws| == 1 {
      SplitWordThen(ws[0], "");
      assert ws[0] + "" == ws[0];
    } else if |ws| > 1 {
      var rest := " " + JoinWords(ws[1..]);
      assert JoinWords(ws) == ws[0] + rest;
      SplitWordThen(ws[0], rest);
      assert rest[0] == ' ' && rest[1..] == JoinWords(ws[1..]);
      assert Split(rest) == Split(JoinWords(ws[1..]));
      SplitJoin(ws[1..]);
      assert ws == [ws[0]] + ws[1..];
    }
  }

  /** Joining a non-empty list of words gives a non-empty string. */
  lemma JoinNonEmpty(ws: seq<string>)
    requires AllWords(ws) && ws != []
    ensures JoinWords(ws) != ""
  {
    SplitJoin(ws);
  }

  /** A string splits into no words exactly when it is all whitespace. */
  lemma {:induction false} SplitEmptyIff(s: string)
    ensures Split(s) == [] <==> AllSpace(s)
    decreases |s|
  {
    if s != [] {
      if IsSpace(s[0]) {
        SplitEmptyIff(s[1..]);
        if AllSpace(s[1..]) {
          forall i | 0 <= i < |s| ensures IsSpace(s[i]) {
            if i > 0 { assert s[i] == s[1..][i - 1]; }
          }
        } else {
          var i :| 0 <= i < |s[1..]| && !IsSpace(s[1..][i]);
          assert !IsSpace(s[i + 1]);
        }
      } else {
        assert !IsSpace(s[0]);
      }
    }
  }

  lemma {:induction false} ConcatAppend(a: seq<string>, b: seq<string>)
    ensures Concat(a + b) == Concat(a) + Concat(b)
    decreases |b|
  {
    if b == [] {
      assert a + b == a;
    } else {
      var b' := b[..|b| - 1];
      assert (a + b)[..|a + b| - 1] == a + b';
      ConcatAppend(a, b');
    }
  }

  /** `Concat` read from the front: the first string, then the rest. */
  lemma ConcatCons(ss: seq<string>)
    requires ss != []
    ensures Concat(ss) == ss[0] + Concat(ss[1..])
  {
    ConcatAppend([ss[0]], ss[1..]);
    assert [ss[0]] + ss[1..] == ss;
    assert [ss[0]][..0] == [];
  }

  /** Any string followed by `suffix` ends with `suffix`, and a string that
      ends with `suffix` is what comes before it followed by `suffix`. */
  lemma EndsWithIff(s: string, suffix: string)
    ensures EndsWith(s, suffix) <==> exists n :: 0 <= n <= |s| && s == s[..n] + suffix
  {
    if EndsWith(s, suffix) {
      TakeDrop(s, |s| - |suffix|);
    }
  }

  lemma TakeDrop<T>(s: seq<T>, n: nat)
    requires n <= |s|
    ensures s[..n] + s[n..] == s
  {
  }

  lemma {:induction false} NonSpaceAppend(a: string, b: string)
    ensures NonSpace(a + b) == NonSpace(a) + NonSpace(b)
    decreases |a|
  {
    if a == [] {
      assert a + b == b;
    } else {
      assert (a + b)[1..] == a[1..] + b;
      NonSpaceAppend(a[1..], b);
    }
  }

  lemma {:induction false} NonSpaceOfWord(w: string)
    requires forall i :: 0 <= i < |w| ==> !IsSpace(w[i])
    ensures NonSpace(w) == w
    decreases |w|
  {
    if w != [] {
      NonSpaceOfWord(w[1..]);
    }
  }

  /** Split loses only whitespace: its words, concatenated, are exactly the
      non-whitespace characters of the input, in order. */
  lemma {:induction false} SplitKeepsNonSpace(s: string)
    ensures Concat(Split(s)) == NonSpace(s)
    decreases |s|
  {
    if s != [] {
      if IsSpace(s[0]) {
        SplitKeepsNonSpace(s[1..]);
      } else {
        var n := WordLength(s);
        SplitKeepsNonSpace(s[n..]);
        ConcatAppend([s[..n]], Split(s[n..]));
        assert Concat([s[..n]]) == s[..n] by {
          assert [s[..n]][..0] == [];
        }
        NonSpaceOfWord(s[..n]);
        NonSpaceAppend(s[..n], s[n..]);
        TakeDrop(s, n);
      }
    }
  }
}
