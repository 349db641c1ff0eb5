/**
 * The few pieces of Python's `str` behaviour that the drivers rely on:
 * `isspace`, `strip`, `startswith`/`endswith`, `in`, `split()` and
 * `split(sep)`, iteration over the lines of a text file, and `str(int)`.
 */
module Text {

  datatype Option<T> = None | Some(value: T)

  // ---------------------------------------------------------------------
  // Character classes
  // ---------------------------------------------------------------------

  /** Python's `str.isspace` on one character; also the class `\s` of `re` on `str` patterns. */
  predicate IsSpace(c: char)
  {
    || c == ' '
    || ('\t' <= c <= '\r')
    || ('\U{1c}' <= c <= '\U{1f}')
    || c == '\U{85}' || c == '\U{a0}' || c == '\U{1680}'
    || ('\U{2000}' <= c <= '\U{200a}')
    || c == '\U{2028}' || c == '\U{2029}' || c == '\U{202f}' || c == '\U{205f}' || c == '\U{3000}'
  }

  /** An ASCII decimal digit (the class `\d` restricted to ASCII). */
  predicate IsDigit(c: char)
  {
    '0' <= c <= '9'
  }

  predicate AllSpace(s: string)
  {
    forall k :: 0 <= k < |s| ==> IsSpace(s[k])
  }

  predicate NoSpace(s: string)
  {
    forall k :: 0 <= k < |s| ==> !IsSpace(s[k])
  }

  predicate AllDigits(s: string)
  {
    forall k :: 0 <= k < |s| ==> IsDigit(s[k])
  }

  // ---------------------------------------------------------------------
  // Prefixes, suffixes, substrings
  // ---------------------------------------------------------------------

  predicate StartsWith(s: string, p: string)
  {
    |p| <= |s| && s[..|p|] == p
  }

  predicate EndsWith(s: string, p: string)
  {
    |p| <= |s| && s[|s| - |p|..] == p
  }

  /** The substring test `t in s`. */
  predicate Contains(s: string, t: string)
    decreases |s|
  {
    StartsWith(s, t) || (s != [] && Contains(s[1..], t))
  }

  /** Any occurrence `a + t + b` makes `t in s` true. */
  lemma {:induction false} ContainsWitness(a: string, t: string, b: string)
    ensures Contains(a + t + b, t)
    decreases |a|
  {
    if a == [] {
      assert (a + t + b)[..|t|] == t;
    } else {
      assert (a + t + b)[1..] == a[1..] + t + b;
      ContainsWitness(a[1..], t, b);
    }
  }

  /** An occurrence found by `t in s`, as a split `a + t + b`. */
  lemma {:induction false} ContainsSplit(s: string, t: string) returns (a: string, b: string)
    requires Contains(s, t)
    ensures s == a + t + b
    decreases |s|
  {
    if StartsWith(s, t) {
      a, b := [], s[|t|..];
    } else {
      var a', b' := ContainsSplit(s[1..], t);
      a, b := [s[0]] + a', b';
    }
  }

  /** `t in s` holds exactly when `s` splits as `a + t + b`. */
  lemma ContainsIff(s: string, t: string)
    ensures Contains(s, t) <==> exists a, b :: s == a + t + b
  {
    forall a: string, b: string | s == a + t + b ensures Contains(s, t) {
      ContainsWitness(a, t, b);
    }
    if Contains(s, t) {
      var a, b := ContainsSplit(s, t);
    }
  }

  /** An occurrence at `i` bounds the first occurrence. */
  lemma {:induction false} IndexOfAtMost(s: string, c: char, i: int)
    requires 0 <= i < |s| && s[i] == c
    ensures IndexOf(s, c) <= i
    decreases i
  {
    if s[0] != c {
      assert s[1..][i - 1] == c;
      IndexOfAtMost(s[1..], c, i - 1);
    }
  }

  /** Index of the first `c` in `s`, or `|s|` when there is none. */
  function IndexOf(s: string, c: char): (k: nat)
    ensures k <= |s|
    decreases |s|
  {
    if s == [] then 0
    else if s[0] == c then 0
    else 1 + IndexOf(s[1..], c)
  }
  /** `IndexOf` stops at an occurrence of `c`, when there is one. */
  lemma {:induction false} IndexOfHit(s: string, c: char)
    ensures IndexOf(s, c) < |s| ==> s[IndexOf(s, c)] == c
    decreases |s|
  {
    if s != [] && s[0] != c {
      IndexOfHit(s[1..], c);
    }
  }

  /** `IndexOf` finds the first occurrence, or the length when there is none. */
  lemma {:induction false} IndexOfSpec(s: string, c: char)
    ensures c !in s[..IndexOf(s, c)]
    ensures IndexOf(s, c) < |s| ==> s[IndexOf(s, c)] == c
    decreases |s|
  {
    if s != [] && s[0] != c {
      IndexOfSpec(s[1..], c);
      assert s[..IndexOf(s, c)] == [s[0]] + s[1..][..IndexOf(s[1..], c)];
    }
  }


  lemma IndexOfFirst(p: string, c: char, rest: string)
    requires c !in p
    ensures IndexOf(p + [c] + rest, c) == |p|
    decreases |p|
  {
    if p != [] {
      assert (p + [c] + rest)[1..] == p[1..] + [c] + rest;
      IndexOfFirst(p[1..], c, rest);
    }
  }

  lemma {:induction false} IndexOfAbsent(s: string, c: char)
    requires c !in s
    ensures IndexOf(s, c) == |s|
    decreases |s|
  {
    if s != [] {
      assert s[0] in s;
      assert forall x :: x in s[1..] ==> x in s;
      IndexOfAbsent(s[1..], c);
    }
  }

  // ---------------------------------------------------------------------
  // strip()
  // ---------------------------------------------------------------------

  /** The number of whitespace characters `s` starts with. */
  function LeadingSpaces(s: string): (n: nat)
    ensures n <= |s|
    decreases |s|
  {
    if s != [] && IsSpace(s[0]) then 1 + LeadingSpaces(s[1..]) else 0
  }

  /** The number of whitespace characters `s` ends with. */
  function TrailingSpaces(s: string): (n: nat)
    ensures n <= |s|
    decreases |s|
  {
    if s != [] && IsSpace(s[|s| - 1]) then 1 + TrailingSpaces(s[..|s| - 1]) else 0
  }

  /** `LeadingSpaces` counts the maximal whitespace prefix. */
  lemma {:induction false} LeadingSpacesSpec(s: string)
    ensures AllSpace(s[..LeadingSpaces(s)])
    ensures LeadingSpaces(s) < |s| ==> !IsSpace(s[LeadingSpaces(s)])
    decreases |s|
  {
    if s != [] && IsSpace(s[0]) {
      LeadingSpacesSpec(s[1..]);
      assert s[..LeadingSpaces(s)] == [s[0]] + s[1..][..LeadingSpaces(s[1..])];
    }
  }

  lemma AllSpaceAppend(u: string, v: string)
    requires AllSpace(u) && AllSpace(v)
    ensures AllSpace(u + v)
  {
    forall k | 0 <= k < |u + v| ensures IsSpace((u + v)[k]) {
      if k < |u| {
        assert (u + v)[k] == u[k];
      } else {
        assert (u + v)[k] == v[k - |u|];
      }
    }
  }

  /** `TrailingSpaces` counts the maximal whitespace suffix. */
  lemma {:induction false} TrailingSpacesSpec(s: string)
    ensures AllSpace(s[|s| - TrailingSpaces(s)..])
    ensures TrailingSpaces(s) < |s| ==> !IsSpace(s[|s| - TrailingSpaces(s) - 1])
    decreases |s|
  {
    if s != [] && IsSpace(s[|s| - 1]) {
      var p, x := s[..|s| - 1], s[|s| - 1];
      TrailingSpacesSpec(p);
      var n := TrailingSpaces(p);
      assert s == p + [x];
      assert s[|s| - TrailingSpaces(s)..] == p[|p| - n..] + [x];
      AllSpaceAppend(p[|p| - n..], [x]);
    }
  }

  /** Whitespace followed by a non-space start: the whitespace is exactly what is counted. */
  lemma {:induction false} LeadingSpacesExact(w: string, s: string)
    requires AllSpace(w)
    requires s == [] || !IsSpace(s[0])
    ensures LeadingSpaces(w + s) == |w|
    decreases |w|
  {
    if w == [] {
      assert w + s == s;
    } else {
      assert (w + s)[1..] == w[1..] + s;
      LeadingSpacesExact(w[1..], s);
    }
  }

  /** A non-space end followed by whitespace: the whitespace is exactly what is counted. */
  lemma {:induction false} TrailingSpacesExact(s: string, w: string)
    requires AllSpace(w)
    requires s == [] || !IsSpace(s[|s| - 1])
    ensures TrailingSpaces(s + w) == |w|
    decreases |w|
  {
    if w == [] {
      assert s + w == s;
    } else {
      var w' := w[..|w| - 1];
      assert (s + w)[..|s + w| - 1] == s + w';
      TrailingSpacesExact(s, w');
    }
  }

  /** Stripping whitespace padding off a word that starts and ends with non-space gives the word back. */
  lemma StripPadded(w1: string, s: string, w2: string)
    requires AllSpace(w1) && AllSpace(w2)
    requires s != [] && !IsSpace(s[0]) && !IsSpace(s[|s| - 1])
    ensures Strip(w1 + s + w2) == s
  {
    ConcatAssoc(w1, s, w2);
    LeadingSpacesExact(w1, s + w2);
    assert TrimLeft(w1 + s + w2) == s + w2;
    TrailingSpacesExact(s, w2);
  }

  /** `s.lstrip()`. */
  function TrimLeft(s: string): string
  {
    s[LeadingSpaces(s)..]
  }

  /** `s.rstrip()`. */
  function TrimRight(s: string): string
  {
    s[..|s| - TrailingSpaces(s)]
  }

  /** `s.strip()`. */
  function Strip(s: string): string
  {
    TrimRight(TrimLeft(s))
  }

  /** `s[i..j]` is surrounded by whitespace only. */
  predicate Framed(s: string, i: int, j: int)
  {
    0 <= i <= j <= |s| && AllSpace(s[..i]) && AllSpace(s[j..])
  }

  /**
   * `strip` removes exactly the whitespace at both ends: the result is an
   * infix `s[i..j]` framed by whitespace only, and it neither starts nor
   * ends with whitespace.
   */
  lemma StripSpec(s: string)
    ensures exists i, j :: Framed(s, i, j) && Strip(s) == s[i..j]
    ensures Strip(s) == [] || (!IsSpace(Strip(s)[0]) && !IsSpace(Strip(s)[|Strip(s)| - 1]))
  {
    var i := LeadingSpaces(s);
    var t := s[i..];
    var n := TrailingSpaces(t);
    var j := |s| - n;
    LeadingSpacesSpec(s);
    TrailingSpacesSpec(t);
    var r := Strip(s);
    assert r == t[..|t| - n];
    assert r == s[i..j];
    assert AllSpace(s[j..]) by {
      assert t[|t| - n..] == s[j..];
    }
    assert Framed(s, i, j);
    if r != [] {
      assert r[0] == s[i];
      assert r[|r| - 1] == t[|t| - n - 1];
    }
  }

  /** A line is blank for `if not s` after stripping iff it is all whitespace. */
  lemma StripEmptyIff(s: string)
    ensures Strip(s) == [] <==> AllSpace(s)
  {
    var i := LeadingSpaces(s);
    LeadingSpacesSpec(s);
    var t := s[i..];
    TrailingSpacesSpec(t);
    if i == |s| {
      assert s[..i] == s;
    } else {
      assert s[i] == t[0];
      TrailingSpacesBound(t);
    }
  }

  /** A text starting with a non-space character is not all trailing whitespace. */
  lemma {:induction false} TrailingSpacesBound(t: string)
    requires t != [] && !IsSpace(t[0])
    ensures TrailingSpaces(t) < |t|
    decreases |t|
  {
    if |t| > 1 && IsSpace(t[|t| - 1]) {
      TrailingSpacesBound(t[..|t| - 1]);
    }
  }

  // ---------------------------------------------------------------------
  // split() and split(sep)
  // ---------------------------------------------------------------------

  /** The number of non-whitespace characters `s` starts with. */
  function LeadingNonSpaces(s: string): (n: nat)
    ensures n <= |s|
    decreases |s|
  {
    if s != [] && !IsSpace(s[0]) then 1 + LeadingNonSpaces(s[1..]) else 0
  }

  lemma {:induction false} LeadingNonSpacesSpec(s: string)
    ensures NoSpace(s[..LeadingNonSpaces(s)])
    ensures LeadingNonSpaces(s) < |s| ==> IsSpace(s[LeadingNonSpaces(s)])
    decreases |s|
  {
    if s != [] && !IsSpace(s[0]) {
      LeadingNonSpacesSpec(s[1..]);
      assert s[..LeadingNonSpaces(s)] == [s[0]] + s[1..][..LeadingNonSpaces(s[1..])];
    }
  }

  /** `s.split()`: the maximal runs of non-whitespace characters, in order. */
  function Words(s: string): seq<string>
    decreases |s|
  {
    if s == [] then []
    else if IsSpace(s[0]) then Words(s[1..])
    else
      var k := LeadingNonSpaces(s);
      [s[..k]] + Words(s[k..])
  }

  /** `s` is whitespace `w`, then `word`, then `rest` empty or starting with whitespace. */
  predicate LeadingWord(s: string, w: string, word: string, rest: string)
  {
    AllSpace(w) && s == w + word + rest && (|rest| == 0 || IsSpace(rest[0]))
  }

  lemma ConcatAssoc(a: string, b: string, c: string)
    ensures a + b + c == a + (b + c)
  {
  }

  lemma ConcatAssoc4(x: string, a: string, b: string, c: string)
    ensures x + a + b + c == x + (a + b + c)
  {
  }

  /**
   * `s.split()` is empty iff `s` is all whitespace; otherwise its first word
   * is nonempty, has no whitespace, follows the leading whitespace, and is
   * followed by whitespace or the end of `s`.
   */
  lemma FirstWordSpec(s: string)
    ensures Words(s) == [] <==> AllSpace(s)
    ensures Words(s) != [] ==> |Words(s)[0]| > 0 && NoSpace(Words(s)[0])
    ensures Words(s) != [] ==> exists w, rest :: LeadingWord(s, w, Words(s)[0], rest)
  {
    WordsEmptyIff(s);
    if Words(s) != [] {
      var w, rest := FirstWord(s);
    }
  }

  lemma {:induction false} WordsEmptyIff(s: string)
    ensures Words(s) == [] <==> AllSpace(s)
    decreases |s|
  {
    if s != [] {
      if IsSpace(s[0]) {
        WordsEmptyIff(s[1..]);
        assert AllSpace(s) <==> AllSpace(s[1..]) by {
          assert forall k :: 1 <= k < |s| ==> s[k] == s[1..][k - 1];
        }
      }
    }
  }

  /** The first word of a text that is not all whitespace, with the whitespace before it and the rest after it. */
  lemma {:induction false} FirstWord(s: string) returns (w: string, rest: string)
    requires !AllSpace(s)
    ensures Words(s) != [] && |Words(s)[0]| > 0 && NoSpace(Words(s)[0])
    ensures LeadingWord(s, w, Words(s)[0], rest)
    decreases |s|
  {
    if IsSpace(s[0]) {
      assert !AllSpace(s[1..]) by {
        assert forall k :: 1 <= k < |s| ==> s[k] == s[1..][k - 1];
      }
      var w', rest' := FirstWord(s[1..]);
      assert Words(s) == Words(s[1..]);
      var word := Words(s)[0];
      w, rest := [s[0]] + w', rest';
      AllSpaceAppend([s[0]], w');
      assert s == [s[0]] + s[1..];
      ConcatAssoc4([s[0]], w', word, rest);
    } else {
      var k := LeadingNonSpaces(s);
      LeadingNonSpacesSpec(s);
      w, rest := [], s[k..];
      assert s == s[..k] + rest;
    }
  }

  /** A run of non-space characters followed by whitespace or the end: the run is exactly what is counted. */
  lemma {:induction false} LeadingNonSpacesExact(word: string, rest: string)
    requires NoSpace(word)
    requires rest == [] || IsSpace(rest[0])
    ensures LeadingNonSpaces(word + rest) == |word|
    decreases |word|
  {
    if word == [] {
      assert word + rest == rest;
    } else {
      assert (word + rest)[1..] == word[1..] + rest;
      LeadingNonSpacesExact(word[1..], rest);
    }
  }

  /** Conversely to `FirstWord`: whitespace, a word, then whitespace or the end splits with that word first. */
  lemma {:induction false} WordsFirst(w: string, word: string, rest: string)
    requires AllSpace(w) && word != [] && NoSpace(word)
    requires rest == [] || IsSpace(rest[0])
    ensures Words(w + word + rest) == [word] + Words(rest)
    decreases |w|
  {
    ConcatAssoc(w, word, rest);
    if w == [] {
      assert w + word + rest == word + rest;
      LeadingNonSpacesExact(word, rest);
      assert (word + rest)[..|word|] == word;
      assert (word + rest)[|word|..] == rest;
    } else {
      WordsFirst(w[1..], word, rest);
      assert (w + word + rest)[1..] == w[1..] + word + rest;
    }
  }

  /** `s.split(sep)` for a one-character separator. */
  function SplitOn(s: string, sep: char): (ps: seq<string>)
    ensures |ps| >= 1
    decreases |s|
  {
    var k := IndexOf(s, sep);
    if k == |s| then [s] else [s[..k]] + SplitOn(s[k + 1..], sep)
  }

  /** No piece of `s.split(sep)` contains `sep`. */
  lemma {:induction false} SplitOnPieces(s: string, sep: char)
    ensures forall i :: 0 <= i < |SplitOn(s, sep)| ==> sep !in SplitOn(s, sep)[i]
    decreases |s|
  {
    var k := IndexOf(s, sep);
    IndexOfSpec(s, sep);
    if k < |s| {
      SplitOnPieces(s[k + 1..], sep);
    } else {
      assert s[..k] == s;
    }
  }

  /** `sep.join(ps)`. */
  function JoinWith(ps: seq<string>, sep: char): string
    requires |ps| >= 1
  {
    if |ps| == 1 then ps[0] else ps[0] + [sep] + JoinWith(ps[1..], sep)
  }

  lemma SplitOnStep(s: string, sep: char, k: nat)
    requires k == IndexOf(s, sep) && k < |s|
    ensures SplitOn(s, sep) == [s[..k]] + SplitOn(s[k + 1..], sep)
  {
  }

  lemma JoinWithStep(ps: seq<string>, sep: char)
    requires |ps| >= 2
    ensures JoinWith(ps, sep) == ps[0] + [sep] + JoinWith(ps[1..], sep)
  {
  }

  /** Joining the pieces of a split restores the string. */
  lemma {:induction false} JoinSplit(s: string, sep: char)
    ensures JoinWith(SplitOn(s, sep), sep) == s
    decreases |s|
  {
    var k := IndexOf(s, sep);
    IndexOfHit(s, sep);
    if k < |s| {
      var tail := s[k + 1..];
      SplitOnStep(s, sep, k);
      JoinSplit(tail, sep);
      var pt := SplitOn(tail, sep);
      var ps := [s[..k]] + pt;
      assert ps[0] == s[..k] && ps[1..] == pt;
      JoinWithStep(ps, sep);
      assert s == s[..k] + [sep] + tail;
    }
  }

  /** Splitting a join of separator-free pieces gives the pieces back. */
  lemma {:induction false} SplitJoin(ps: seq<string>, sep: char)
    requires |ps| >= 1
    requires forall i :: 0 <= i < |ps| ==> sep !in ps[i]
    ensures SplitOn(JoinWith(ps, sep), sep) == ps
    decreases |ps|
  {
    var s := JoinWith(ps, sep);
    if |ps| == 1 {
      IndexOfAbsent(s, sep);
    } else {
      var rest := JoinWith(ps[1..], sep);
      assert s == ps[0] + [sep] + rest;
      IndexOfFirst(ps[0], sep, rest);
      assert s[|ps[0]| + 1..] == rest;
      assert s[..|ps[0]|] == ps[0];
      SplitJoin(ps[1..], sep);
    }
  }

  // ---------------------------------------------------------------------
  // Lines of a text file (`for line in f`, `f.readlines()`)
  // ---------------------------------------------------------------------

  /** Concatenation of a sequence of strings. */
  function Flatten(ls: seq<string>): string
  {
    if ls == [] then [] else ls[0] + Flatten(ls[1..])
  }

  lemma FlattenCons(l: string, rest: seq<string>)
    ensures Flatten([l] + rest) == l + Flatten(rest)
  {
    assert ([l] + rest)[1..] == rest;
  }

  /** Where the first line of `s` ends: just after its first newline, or at the end of `s`. */
  function LineEnd(s: string): (e: nat)
    ensures e <= |s|
    ensures s != [] ==> e > 0
  {
    var k := IndexOf(s, '\n');
    if k < |s| then k + 1 else |s|
  }

  /** The first line holds no newline before its end, and ends in one unless it is the whole text. */
  lemma LineEndSpec(s: string)
    requires s != []
    ensures '\n' !in s[..LineEnd(s) - 1]
    ensures LineEnd(s) < |s| ==> s[LineEnd(s) - 1] == '\n'
  {
    IndexOfSpec(s, '\n');
    var k := IndexOf(s, '\n');
    if k == |s| {
      assert s[..LineEnd(s) - 1] == s[..k][..|s| - 1];
    }
  }

  /**
   * The lines of a file's text as Python yields them: each line keeps its
   * terminating newline; only the last may lack one.
   */
  function Lines(s: string): seq<string>
    decreases |s|
  {
    if s == [] then [] else [s[..LineEnd(s)]] + Lines(s[LineEnd(s)..])
  }

  /** One step of `Lines`. */
  lemma LinesStep(s: string)
    requires s != []
    ensures Lines(s) == [s[..LineEnd(s)]] + Lines(s[LineEnd(s)..])
  {
  }

  /** A line: nonempty, and a newline at most as its last character. */
  predicate IsLine(l: string)
  {
    |l| > 0 && '\n' !in l[..|l| - 1]
  }

  /** The lines put back together give the text. */
  lemma {:induction false} LinesFlatten(s: string)
    ensures Flatten(Lines(s)) == s
    decreases |s|
  {
    if s != [] {
      var e := LineEnd(s);
      LinesStep(s);
      LinesFlatten(s[e..]);
      FlattenCons(s[..e], Lines(s[e..]));
      assert s == s[..e] + s[e..];
    }
  }

  /** Every line is nonempty and holds a newline at most as its last character. */
  lemma {:induction false} LinesAreLines(s: string)
    ensures forall i :: 0 <= i < |Lines(s)| ==> IsLine(Lines(s)[i])
    decreases |s|
  {
    if s != [] {
      var e := LineEnd(s);
      var tail := s[e..];
      LinesStep(s);
      LineEndSpec(s);
      LinesAreLines(tail);
      var ls := Lines(s);
      assert IsLine(ls[0]) by {
        assert ls[0][..e - 1] == s[..e - 1];
      }
      assert forall i :: 1 <= i < |ls| ==> ls[i] == Lines(tail)[i - 1];
    }
  }

  /** Every line but the last ends in a newline. */
  lemma {:induction false} LinesNewlines(s: string)
    ensures forall i :: 0 <= i < |Lines(s)| - 1 ==> |Lines(s)[i]| > 0 && Lines(s)[i][|Lines(s)[i]| - 1] == '\n'
    decreases |s|
  {
    if s != [] {
      var e := LineEnd(s);
      var tail := s[e..];
      LinesStep(s);
      LineEndSpec(s);
      LinesNewlines(tail);
      var ls := Lines(s);
      assert forall i :: 1 <= i < |ls| ==> ls[i] == Lines(tail)[i - 1];
    }
  }

  /** In a text ending in a newline, every line ends in a newline. */
  lemma {:induction false} LinesTerminated(s: string)
    requires s != [] && s[|s| - 1] == '\n'
    ensures forall i :: 0 <= i < |Lines(s)| ==> |Lines(s)[i]| > 0 && Lines(s)[i][|Lines(s)[i]| - 1] == '\n'
    decreases |s|
  {
    var e := LineEnd(s);
    var tail := s[e..];
    LinesStep(s);
    LineEndSpec(s);
    var ls := Lines(s);
    if e < |s| {
      LinesTerminated(tail);
      assert forall i :: 1 <= i < |ls| ==> ls[i] == Lines(tail)[i - 1];
    } else {
      assert tail == [];
      assert ls == [s[..e]];
    }
  }

  /** The last line ends in the text's last character (a newline or not). */
  lemma {:induction false} LinesLastChar(s: string) returns (l: string)
    requires s != []
    ensures |Lines(s)| > 0 && l == Lines(s)[|Lines(s)| - 1]
    ensures |l| > 0 && l[|l| - 1] == s[|s| - 1]
    decreases |s|
  {
    var e := LineEnd(s);
    var tail := s[e..];
    LinesStep(s);
    var ls := Lines(s);
    if e < |s| {
      l := LinesLastChar(tail);
      var lt := Lines(tail);
      assert ls == [s[..e]] + lt;
      assert ls[|ls| - 1] == lt[|lt| - 1];
      assert tail[|tail| - 1] == s[|s| - 1];
    } else {
      assert tail == [];
      assert ls == [s[..e]];
      l := s[..e];
    }
  }

  /** No occurrence before `j` puts the first occurrence at `j` or later. */
  lemma {:induction false} IndexOfNotBefore(s: string, c: char, j: nat)
    requires j <= |s| && c !in s[..j]
    ensures IndexOf(s, c) >= j
    decreases j
  {
    if j > 0 {
      assert s[0] in s[..j];
      assert s[1..][..j - 1] == s[..j][1..];
      IndexOfNotBefore(s[1..], c, j - 1);
    }
  }

  /** A single line is its own only line. */
  lemma LinesSingle(l: string)
    requires IsLine(l)
    ensures Lines(l) == [l]
  {
    IndexOfNotBefore(l, '\n', |l| - 1);
    assert LineEnd(l) == |l|;
    LinesStep(l);
    assert l[..|l|] == l && l[|l|..] == [];
  }

  /** A line ending in a newline, written before more text, is read back as the first line. */
  lemma LineEndOfLine(l: string, rest: string)
    requires IsLine(l) && l[|l| - 1] == '\n'
    ensures LineEnd(l + rest) == |l|
  {
    var p := l[..|l| - 1];
    assert l == p + ['\n'];
    assert l + rest == p + ['\n'] + rest;
    IndexOfFirst(p, '\n', rest);
  }

  /** Complete lines written one after another are read back as exactly those lines. */
  lemma {:induction false} LinesOfLines(ls: seq<string>)
    requires forall i :: 0 <= i < |ls| ==> IsLine(ls[i]) && ls[i][|ls[i]| - 1] == '\n'
    ensures Lines(Flatten(ls)) == ls
    decreases |ls|
  {
    if ls != [] {
      var l, rest := ls[0], ls[1..];
      var s := Flatten(ls);
      assert ls == [l] + rest;
      FlattenCons(l, rest);
      assert s == l + Flatten(rest);
      LineEndOfLine(l, Flatten(rest));
      LinesStep(s);
      assert s[..|l|] == l;
      assert s[|l|..] == Flatten(rest);
      LinesOfLines(rest);
    }
  }

  /** Appending one more string to a concatenation. */
  lemma {:induction false} FlattenSnoc(ls: seq<string>, l: string)
    ensures Flatten(ls + [l]) == Flatten(ls) + l
    decreases |ls|
  {
    if ls == [] {
      assert ls + [l] == [l];
      FlattenCons(l, []);
    } else {
      assert ls + [l] == [ls[0]] + (ls[1..] + [l]);
      FlattenCons(ls[0], ls[1..] + [l]);
      FlattenSnoc(ls[1..], l);
      FlattenCons(ls[0], ls[1..]);
      assert ls == [ls[0]] + ls[1..];
    }
  }

  // ---------------------------------------------------------------------
  // str(int)
  // ---------------------------------------------------------------------

  function DigitChar(d: nat): (c: char)
    requires d < 10
    ensures IsDigit(c)
  {
    (48 + d) as char
  }

  function DigitValue(c: char): nat
    requires IsDigit(c)
  {
    (c as int) - 48
  }

  /** The value of a run of decimal digits. */
  function DigitsValue(s: string): nat
    requires AllDigits(s)
  {
    if s == [] then 0 else 10 * DigitsValue(s[..|s| - 1]) + DigitValue(s[|s| - 1])
  }

  /** `str(n)` for a natural number: decimal, no leading zeros. */
  function NatToString(n: nat): (s: string)
    ensures s != [] && AllDigits(s)
    ensures |s| > 1 ==> s[0] != '0'
  {
    if n < 10 then [DigitChar(n)] else NatToString(n / 10) + [DigitChar(n % 10)]
  }

  /** Reading back the digits of `str(n)` gives `n`. */
  lemma {:induction false} NatToStringValue(n: nat)
    ensures DigitsValue(NatToString(n)) == n
  {
    if n >= 10 {
      var s := NatToString(n);
      assert s[..|s| - 1] == NatToString(n / 10);
      NatToStringValue(n / 10);
    }
  }

  /** `str(i)` for any integer. */
  function IntToString(i: int): string
  {
    if i < 0 then "-" + NatToString(-i) else NatToString(i)
  }

  /** `int(s)` on what `str` writes: an optional minus sign, then digits. */
  function IntValue(s: string): int
    requires AllDigits(s) || (s != [] && s[0] == '-' && AllDigits(s[1..]))
  {
    if s != [] && s[0] == '-' then -(DigitsValue(s[1..]) as int) else DigitsValue(s)
  }

  /** Reading back `str(i)` gives `i`. */
  lemma IntToStringRoundTrip(i: int)
    ensures var s := IntToString(i); (AllDigits(s) || (s != [] && s[0] == '-' && AllDigits(s[1..]))) && IntValue(s) == i
  {
    if i < 0 {
      assert IntToString(i)[1..] == NatToString(-i);
      NatToStringValue(-i);
    } else {
      NatToStringValue(i);
    }
  }

  /** Different integers are written differently. */
  lemma IntToStringInjective(a: int, b: int)
    requires a != b
    ensures IntToString(a) != IntToString(b)
  {
    IntToStringRoundTrip(a);
    IntToStringRoundTrip(b);
  }
}
