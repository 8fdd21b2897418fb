/**
 The string primitives the route handler leans on, written out as pure functions:
 ECMAScript whitespace, String.prototype.trim, String.prototype.split(' '),
 the `length` and `substring(0, n)` of a JavaScript string, and the global
 regex replacement of a character run by a single space. `Join`, joining with
 single spaces, is not called by the route: it is the inverse of the split,
 against which round trips are stated.
 */
module Text {

  function Min(a: int, b: int): int {
    if a <= b then a else b
  }

  /** The ECMAScript WhiteSpace and LineTerminator code points: exactly what
      `trim` strips and what the regex class `\s` matches. */
  predicate IsWhitespace(c: char) {
    || c == ' ' || c == '\t' || c == '\n' || c == '\r'
    || c == '\U{000B}' || c == '\U{000C}'
    || c == '\U{00A0}' || c == '\U{1680}'
    || ('\U{2000}' <= c <= '\U{200A}')
    || c == '\U{2028}' || c == '\U{2029}'
    || c == '\U{202F}' || c == '\U{205F}' || c == '\U{3000}' || c == '\U{FEFF}'
  }

  predicate AllWhitespace(s: string) {
    forall k :: 0 <= k < |s| ==> IsWhitespace(s[k])
  }

  predicate NoWhitespace(s: string) {
    forall k :: 0 <= k < |s| ==> !IsWhitespace(s[k])
  }

  /** No two neighbouring characters are both whitespace. The neighbours are
      named by two bound positions rather than by `k` and `k + 1`, so that an
      instance of the quantifier does not produce the index term that triggers
      the next one. */
  predicate NoDoubleWhitespace(s: string) {
    forall j, k :: 0 <= j < |s| && j < k < |s| && k == j + 1 ==> !(IsWhitespace(s[j]) && IsWhitespace(s[k]))
  }

  /** Every whitespace character of `s` is a plain space. */
  predicate WhitespaceIsSpace(s: string) {
    forall k :: 0 <= k < |s| && IsWhitespace(s[k]) ==> s[k] == ' '
  }

  /** Gluing two texts whose whitespace is single plain spaces keeps it so,
      unless whitespace meets whitespace at the seam. */
  lemma {:induction false} SpacingAppend(a: string, b: string)
    requires NoDoubleWhitespace(a) && WhitespaceIsSpace(a)
    requires NoDoubleWhitespace(b) && WhitespaceIsSpace(b)
    requires a == [] || b == [] || !(IsWhitespace(a[|a| - 1]) && IsWhitespace(b[0]))
    ensures NoDoubleWhitespace(a + b) && WhitespaceIsSpace(a + b)
  {
    var s := a + b;
    forall k | 0 <= k < |s| - 1
      ensures !(IsWhitespace(s[k]) && IsWhitespace(s[k + 1]))
    {
      if k + 1 < |a| {
        assert s[k] == a[k] && s[k + 1] == a[k + 1];
      } else if k >= |a| {
        assert s[k] == b[k - |a|] && s[k + 1] == b[k + 1 - |a|];
      }
    }
  }

  /** Appending a space and a word to a text spaced by single plain spaces
      that does not end in whitespace keeps it so. */
  lemma {:induction false} SpaceThenWord(a: string, w: string)
    requires NoDoubleWhitespace(a) && WhitespaceIsSpace(a) && (a == [] || !IsWhitespace(a[|a| - 1]))
    requires w != [] && NoWhitespace(w)
    ensures var s := a + " " + w; NoDoubleWhitespace(s) && WhitespaceIsSpace(s) && !IsWhitespace(s[|s| - 1])
  {
    SpacingAppend(a, " ");
    SpacingAppend(a + " ", w);
  }

  /** A contiguous piece of a string keeps its whitespace discipline. */
  lemma {:induction false} SliceKeepsSpacing(s: string, i: nat, j: nat)
    requires i <= j <= |s|
    ensures NoDoubleWhitespace(s) ==> NoDoubleWhitespace(s[i..j])
    ensures WhitespaceIsSpace(s) ==> WhitespaceIsSpace(s[i..j])
  {
    var t := s[i..j];
    assert forall k :: 0 <= k < |t| ==> t[k] == s[i + k];
  }

  // ---------------------------------------------------------------------------
  // Words: the reference for everything whitespace handling must preserve.

  /** The maximal runs of non-whitespace characters of `s`, in order. */
  function Words(s: string): (ws: seq<string>)
    ensures |s| > 0 && !IsWhitespace(s[0]) ==> |ws| > 0
    decreases |s|
  {
    if |s| == 0 then []
    else if IsWhitespace(s[0]) then Words(s[1..])
    else
      var rest := Words(s[1..]);
      if |s| > 1 && !IsWhitespace(s[1]) then [[s[0]] + rest[0]] + rest[1..]
      else [[s[0]]] + rest
  }

  /** Every word is non-empty and holds no whitespace. */
  lemma {:induction false} WordsShape(s: string)
    ensures forall k :: 0 <= k < |Words(s)| ==> Words(s)[k] != [] && NoWhitespace(Words(s)[k])
    decreases |s|
  {
    if |s| > 0 {
      WordsShape(s[1..]);
    }
  }

  /** A text has words exactly when it holds a non-whitespace character. */
  lemma {:induction false} NoWordsAllWhitespace(s: string)
    ensures Words(s) == [] <==> AllWhitespace(s)
    decreases |s|
  {
    if |s| > 0 {
      NoWordsAllWhitespace(s[1..]);
      assert AllWhitespace(s) <==> IsWhitespace(s[0]) && AllWhitespace(s[1..]) by {
        assert forall k :: 0 < k < |s| ==> s[k] == s[1..][k - 1];
      }
    }
  }

  /** Whitespace in front of a text adds no word. */
  lemma {:induction false} WordsSkip(a: string, b: string)
    requires AllWhitespace(a)
    ensures Words(a + b) == Words(b)
    decreases |a|
  {
    if |a| == 0 {
      assert a + b == b;
    } else {
      assert (a + b)[1..] == a[1..] + b;
      assert AllWhitespace(a[1..]) by {
        assert forall k :: 0 <= k < |a| - 1 ==> a[1..][k] == a[k + 1];
      }
      WordsSkip(a[1..], b);
    }
  }

  /** Words of two texts glued at whitespace are the words of each, in order. */
  lemma {:induction false} WordsAppend(a: string, b: string)
    requires a == [] || b == [] || IsWhitespace(a[|a| - 1]) || IsWhitespace(b[0])
    ensures Words(a + b) == Words(a) + Words(b)
    decreases |a|
  {
    var s := a + b;
    if |a| == 0 {
      assert s == b;
    } else if |b| == 0 {
      assert s == a;
    } else {
      assert s[0] == a[0] && s[1..] == a[1..] + b;
      WordsAppend(a[1..], b);
      var wa, wb := Words(a[1..]), Words(b);
      if IsWhitespace(a[0]) {
      } else if |a| == 1 {
        assert a[1..] == [] && s[1] == b[0];
        assert Words(a) == [[a[0]]];
      } else if IsWhitespace(a[1]) {
        assert s[1] == a[1];
      } else {
        assert s[1] == a[1] && |wa| > 0;
        assert (wa + wb)[0] == wa[0] && (wa + wb)[1..] == wa[1..] + wb;
      }
    }
  }

  /** The words of a text, followed by a non-whitespace character glued to
      its last visible character: the last word grows by that character. */
  function GlueLast(ws: seq<string>, c: char): seq<string>
    requires |ws| > 0
  {
    ws[..|ws| - 1] + [ws[|ws| - 1] + [c]]
  }

  lemma {:induction false} WordsGlue(a: string, c: char)
    requires a != [] && !IsWhitespace(a[|a| - 1]) && !IsWhitespace(c)
    ensures |Words(a)| > 0 && Words(a + [c]) == GlueLast(Words(a), c)
    decreases |a|
  {
    var s := a + [c];
    assert s[0] == a[0] && s[1..] == a[1..] + [c];
    if |a| == 1 {
      assert s[1..] == [c];
      assert Words([c]) == [[c]];
      assert Words(a) == [[a[0]]];
    } else {
      WordsGlue(a[1..], c);
      var w := Words(a[1..]);
      assert s[1] == a[1];
      if IsWhitespace(a[0]) {
      } else if IsWhitespace(a[1]) {
        GlueLastSeparate([a[0]], w, c);
      } else {
        GlueLastExtend(a[0], w, c);
      }
    }
  }

  lemma {:induction false} GlueLastSeparate(x: string, w: seq<string>, c: char)
    requires |w| > 0
    ensures [x] + GlueLast(w, c) == GlueLast([x] + w, c)
  {
    var v := [x] + w;
    assert v[..|v| - 1] == [x] + w[..|w| - 1];
  }

  lemma {:induction false} GlueLastExtend(a: char, w: seq<string>, c: char)
    requires |w| > 0
    ensures var g := GlueLast(w, c);
      [[a] + g[0]] + g[1..] == GlueLast([[a] + w[0]] + w[1..], c)
  {
    var g := GlueLast(w, c);
    var v := [[a] + w[0]] + w[1..];
    if |w| == 1 {
      assert g == [w[0] + [c]] && g[1..] == [];
      assert v == [[a] + w[0]];
      assert GlueLast(v, c) == [([a] + w[0]) + [c]];
      assert [a] + (w[0] + [c]) == ([a] + w[0]) + [c];
    } else {
      assert g[0] == w[0];
      assert g[1..] == w[1..|w| - 1] + [w[|w| - 1] + [c]];
      assert v[..|v| - 1] == [[a] + w[0]] + w[1..|w| - 1];
    }
  }

  /** A text in normal form is its words joined by single spaces. */
  predicate NormalForm(r: string) {
    && (r == [] || (!IsWhitespace(r[0]) && !IsWhitespace(r[|r| - 1])))
    && NoDoubleWhitespace(r)
    && WhitespaceIsSpace(r)
  }

  lemma {:induction false} NormalJoin(r: string)
    requires NormalForm(r)
    ensures r == Join(Words(r))
    decreases |r|
  {
    if |r| == 1 {
      assert Words(r) == [[r[0]]];
    } else if |r| > 1 {
      SliceKeepsSpacing(r, 1, |r|);
      if !IsWhitespace(r[1]) {
        var w := Words(r[1..]);
        assert r[1..][0] == r[1];
        NormalJoin(r[1..]);
        JoinConsChar(r[0], w);
        assert r == [r[0]] + r[1..];
      } else {
        assert r[1] == ' ';
        assert !IsWhitespace(r[2]);
        SliceKeepsSpacing(r, 2, |r|);
        assert r[2..][0] == r[2];
        NormalJoin(r[2..]);
        assert r[1..][1..] == r[2..];
        var w := Words(r[2..]);
        assert Words(r) == [[r[0]]] + w;
        assert ([[r[0]]] + w)[1..] == w;
        assert r == [r[0]] + " " + r[2..];
      }
    }
  }

  /** A non-empty text without whitespace is one word. */
  lemma {:induction false} WordsOfWord(w: string)
    requires w != [] && NoWhitespace(w)
    ensures Words(w) == [w]
    decreases |w|
  {
    if |w| == 1 {
      assert w == [w[0]];
    } else {
      assert NoWhitespace(w[1..]) by {
        assert forall k :: 0 <= k < |w| - 1 ==> w[1..][k] == w[k + 1];
      }
      WordsOfWord(w[1..]);
      assert w[1] == w[1..][0];
      assert [w[0]] + w[1..] == w;
    }
  }

  /** Round trip: words joined by single spaces split back into the same
      words. */
  lemma {:induction false} WordsJoin(ws: seq<string>)
    requires forall k :: 0 <= k < |ws| ==> ws[k] != [] && NoWhitespace(ws[k])
    ensures Words(Join(ws)) == ws
    decreases |ws|
  {
    if |ws| == 1 {
      WordsOfWord(ws[0]);
    } else if |ws| > 1 {
      var rest := Join(ws[1..]);
      WordsJoin(ws[1..]);
      WordsOfWord(ws[0]);
      assert ws[0] + " " + rest == ws[0] + (" " + rest);
      WordsAppend(ws[0], " " + rest);
      assert " " + rest == " " + rest;
      WordsSkip(" ", rest);
      assert [ws[0]] + ws[1..] == ws;
    }
  }

  /** Joining is not disturbed by a character put in front of the first word. */
  lemma {:induction false} JoinConsChar(c: char, ws: seq<string>)
    requires |ws| > 0
    ensures Join([[c] + ws[0]] + ws[1..]) == [c] + Join(ws)
  {
    var x := [[c] + ws[0]] + ws[1..];
    if |ws| > 1 {
      assert x[1..] == ws[1..];
    }
  }

  // ---------------------------------------------------------------------------
  // trim, as a pair of scans over indices.

  /** The first index at or after `i` that does not hold whitespace. */
  function SkipWhitespace(s: string, i: nat): (j: nat)
    requires i <= |s|
    ensures i <= j <= |s|
    ensures j < |s| ==> !IsWhitespace(s[j])
    decreases |s| - i
  {
    if i < |s| && IsWhitespace(s[i]) then SkipWhitespace(s, i + 1) else i
  }

  /** The last end index, at most `j` and at least `i`, whose character
      before it is not whitespace (or `i` itself). */
  function SkipWhitespaceBack(s: string, i: nat, j: nat): (k: nat)
    requires i <= j <= |s|
    ensures i <= k <= j
    ensures k > i ==> !IsWhitespace(s[k - 1])
    decreases j
  {
    if i < j && IsWhitespace(s[j - 1]) then SkipWhitespaceBack(s, i, j - 1) else j
  }

  lemma {:induction false} SkippedIsWhitespace(s: string, i: nat)
    requires i <= |s|
    ensures forall k :: i <= k < SkipWhitespace(s, i) ==> IsWhitespace(s[k])
    decreases |s| - i
  {
    if i < |s| && IsWhitespace(s[i]) {
      SkippedIsWhitespace(s, i + 1);
    }
  }

  lemma {:induction false} SkippedBackIsWhitespace(s: string, i: nat, j: nat)
    requires i <= j <= |s|
    ensures forall k :: SkipWhitespaceBack(s, i, j) <= k < j ==> IsWhitespace(s[k])
    decreases j
  {
    if i < j && IsWhitespace(s[j - 1]) {
      SkippedBackIsWhitespace(s, i, j - 1);
    }
  }

  /** The scan from the front stops at the first non-whitespace character. */
  lemma {:induction false} SkipStopsAt(s: string, i: nat, k: nat)
    requires i <= k < |s| && !IsWhitespace(s[k])
    ensures SkipWhitespace(s, i) <= k
    decreases k - i
  {
    if i < k && IsWhitespace(s[i]) {
      SkipStopsAt(s, i + 1, k);
    }
  }

  /** `trim`: `s` without its leading and trailing whitespace. */
  function Trim(s: string): (r: string)
    ensures |r| <= |s|
    ensures r == [] || (!IsWhitespace(r[0]) && !IsWhitespace(r[|r| - 1]))
  {
    var i := SkipWhitespace(s, 0);
    s[i..SkipWhitespaceBack(s, i, |s|)]
  }

  /** Trim cuts `s` into whitespace, the result, and whitespace. */
  lemma {:induction false} TrimParts(s: string)
    ensures var i := SkipWhitespace(s, 0); var j := SkipWhitespaceBack(s, i, |s|);
      && s == s[..i] + Trim(s) + s[j..]
      && AllWhitespace(s[..i]) && AllWhitespace(s[j..])
  {
    var i := SkipWhitespace(s, 0);
    var j := SkipWhitespaceBack(s, i, |s|);
    assert Trim(s) == s[i..j];
    assert s == s[..i] + s[i..j] + s[j..];
    SkippedIsWhitespace(s, 0);
    SkippedBackIsWhitespace(s, i, |s|);
    assert AllWhitespace(s[..i]) by {
      forall k | 0 <= k < i
        ensures IsWhitespace(s[..i][k])
      {
        assert s[..i][k] == s[k];
      }
    }
    assert AllWhitespace(s[j..]) by {
      forall k | 0 <= k < |s| - j
        ensures IsWhitespace(s[j..][k])
      {
        assert s[j..][k] == s[j + k];
      }
    }
  }

  /** Trimming loses no word. */
  lemma {:induction false} TrimKeepsWords(s: string)
    ensures Words(Trim(s)) == Words(s)
  {
    TrimParts(s);
    var i := SkipWhitespace(s, 0);
    var j := SkipWhitespaceBack(s, i, |s|);
    var t, lead, trail := Trim(s), s[..i], s[j..];
    assert s == lead + (t + trail);
    WordsSkip(lead, t + trail);
    WordsAppend(t, trail);
    WordsSkip(trail, []);
    assert trail + [] == trail;
  }

  /** Trimming keeps a text's whitespace discipline. */
  lemma {:induction false} TrimKeepsSpacing(s: string)
    ensures NoDoubleWhitespace(s) ==> NoDoubleWhitespace(Trim(s))
    ensures WhitespaceIsSpace(s) ==> WhitespaceIsSpace(Trim(s))
  {
    var i := SkipWhitespace(s, 0);
    SliceKeepsSpacing(s, i, SkipWhitespaceBack(s, i, |s|));
  }

  /** A text that ends in non-whitespace keeps its end under trimming. */
  lemma {:induction false} TrimKeepsEnd(s: string)
    requires s != [] && !IsWhitespace(s[|s| - 1])
    ensures Trim(s) != [] && Trim(s)[|Trim(s)| - 1] == s[|s| - 1]
  {
    SkipStopsAt(s, 0, |s| - 1);
  }

  /** Trimming a text with nothing to trim changes nothing. */
  lemma {:induction false} TrimOfTrimmed(s: string)
    requires s == [] || (!IsWhitespace(s[0]) && !IsWhitespace(s[|s| - 1]))
    ensures Trim(s) == s
  {
    assert s[0..|s|] == s;
  }

  // ---------------------------------------------------------------------------
  // Lengths and cuts counted the JavaScript way.

  /** How many UTF-16 code units a character takes: two above the Basic
      Multilingual Plane, one otherwise. */
  function Units(c: char): nat {
    if c as int >= 0x1_0000 then 2 else 1
  }

  /** The JavaScript `length` of a string: its UTF-16 code units. */
  function Utf16Length(s: string): nat {
    if |s| == 0 then 0 else Utf16Length(s[..|s| - 1]) + Units(s[|s| - 1])
  }

  lemma {:induction false} Utf16Append(a: string, b: string)
    ensures Utf16Length(a + b) == Utf16Length(a) + Utf16Length(b)
    decreases |b|
  {
    if |b| == 0 {
      assert a + b == a;
    } else {
      var s := a + b;
      assert s[..|s| - 1] == a + b[..|b| - 1] && s[|s| - 1] == b[|b| - 1];
      Utf16Append(a, b[..|b| - 1]);
    }
  }

  /** A character takes at most two code units. */
  lemma {:induction false} Utf16Bound(s: string)
    ensures |s| <= Utf16Length(s) <= 2 * |s|
    decreases |s|
  {
    if |s| > 0 {
      Utf16Bound(s[..|s| - 1]);
    }
  }

  /** Two texts joined by a space: the lengths add up, plus one. */
  lemma {:induction false} Utf16Spaced(a: string, b: string)
    ensures Utf16Length(a + " " + b) == Utf16Length(a) + 1 + Utf16Length(b)
  {
    Utf16Append(a + " ", b);
    Utf16Append(a, " ");
    assert " "[..0] == [];
  }

  /** A prefix is never longer than the whole. */
  lemma {:induction false} Utf16Prefix(a: string, s: string)
    requires a <= s
    ensures Utf16Length(a) <= Utf16Length(s)
  {
    assert s == a + s[|a|..];
    Utf16Append(a, s[|a|..]);
  }

  /** The end of the longest prefix of `s`, grown from index `i`, that fits
      in `n` code units. */
  function CutFrom(s: string, n: nat, i: nat): (j: nat)
    requires i <= |s| && Utf16Length(s[..i]) <= n
    ensures i <= j <= |s| && Utf16Length(s[..j]) <= n
    ensures j == |s| || Utf16Length(s[..j + 1]) > n
    decreases |s| - i
  {
    if i < |s| && Utf16Length(s[..i + 1]) <= n then CutFrom(s, n, i + 1) else i
  }

  /** The first `n` UTF-16 code units of `s`, as a JavaScript substring from
      zero takes them. A cut that would
      fall between the two halves of a surrogate pair stops before the pair. */
  function UnitPrefix(s: string, n: nat): (r: string)
    ensures r <= s && Utf16Length(r) <= n
    ensures r == s || Utf16Length(s[..|r| + 1]) > n
  {
    assert s[..0] == [];
    s[..CutFrom(s, n, 0)]
  }

  /** Text that fits is not cut; text that does not fit is cut to at least
      `n - 1` code units, so never to nothing when `n >= 2`. */
  lemma {:induction false} UnitPrefixLength(s: string, n: nat)
    ensures Utf16Length(s) <= n ==> UnitPrefix(s, n) == s
    ensures Utf16Length(s) > n ==> Utf16Length(UnitPrefix(s, n)) + 1 >= n
  {
    var r := UnitPrefix(s, n);
    if r != s {
      var t := s[..|r| + 1];
      assert t[..|t| - 1] == r;
      Utf16Prefix(t, s);
    }
  }

  // ---------------------------------------------------------------------------
  // split(' ') and join(' ').

  /** `parts.join(' ')`. */
  function Join(parts: seq<string>): string {
    if |parts| == 0 then ""
    else if |parts| == 1 then parts[0]
    else parts[0] + " " + Join(parts[1..])
  }

  /** `s.split(' ')`: the pieces between single spaces. There is always at
      least one piece, no piece holds a space, and joining the pieces with
      single spaces gives `s` back. */
  function Split(s: string): (parts: seq<string>)
    ensures |parts| >= 1
    ensures forall k :: 0 <= k < |parts| ==> ' ' !in parts[k]
    ensures Join(parts) == s
    decreases |s|
  {
    if |s| == 0 then [""]
    else
      var rest := Split(s[1..]);
      if s[0] == ' ' then [""] + rest
      else [[s[0]] + rest[0]] + rest[1..]
  }

  lemma {:induction false} JoinAppend(a: seq<string>, b: seq<string>)
    requires |a| > 0 && |b| > 0
    ensures Join(a + b) == Join(a) + " " + Join(b)
    decreases |a|
  {
    if |a| > 1 {
      assert (a + b)[1..] == a[1..] + b;
      JoinAppend(a[1..], b);
    } else {
      assert (a + b)[1..] == b;
    }
  }

  /** Joining two neighbouring parts first changes nothing. */
  lemma {:induction false} JoinMerge(a: seq<string>, x: string, y: string, b: seq<string>)
    ensures Join(a + [x + " " + y] + b) == Join(a + [x, y] + b)
  {
    var merged := [x + " " + y] + b;
    var split := [x, y] + b;
    if |b| == 0 {
      assert Join(split) == x + " " + y;
    } else {
      assert split[1..] == [y] + b;
      JoinAppend([y], b);
      JoinAppend([x + " " + y], b);
    }
    assert Join(merged) == Join(split);
    if |a| > 0 {
      JoinAppend(a, merged);
      JoinAppend(a, split);
      assert a + [x + " " + y] + b == a + merged;
      assert a + [x, y] + b == a + split;
    } else {
      assert a + [x + " " + y] + b == merged;
      assert a + [x, y] + b == split;
    }
  }

  /** A piece without spaces followed by a space is split off whole. */
  lemma {:induction false} SplitWordThenSpace(w: string, t: string)
    requires ' ' !in w
    ensures Split(w + " " + t) == [w] + Split(t)
    decreases |w|
  {
    var s := w + " " + t;
    if |w| == 0 {
      assert s[1..] == t;
    } else {
      assert s[1..] == w[1..] + " " + t;
      SplitWordThenSpace(w[1..], t);
      assert [w[0]] + w[1..] == w;
    }
  }

  lemma {:induction false} SplitWord(w: string)
    requires ' ' !in w
    ensures Split(w) == [w]
    decreases |w|
  {
    if |w| > 0 {
      SplitWord(w[1..]);
      assert [w[0]] + w[1..] == w;
    }
  }

  /** Split and Join are inverse: pieces free of spaces survive a join followed
      by a split unchanged. */
  lemma {:induction false} SplitJoin(parts: seq<string>)
    requires |parts| >= 1
    requires forall k :: 0 <= k < |parts| ==> ' ' !in parts[k]
    ensures Split(Join(parts)) == parts
    decreases |parts|
  {
    if |parts| == 1 {
      SplitWord(parts[0]);
    } else {
      SplitJoin(parts[1..]);
      SplitWordThenSpace(parts[0], Join(parts[1..]));
    }
  }

  /** The first word of a line: what `split(' ')` puts first. */
  function FirstWord(s: string): string {
    Split(s)[0]
  }

  lemma JoinStartsWithFirst(parts: seq<string>)
    requires |parts| > 0
    ensures parts[0] <= Join(parts)
  {
  }

  lemma {:induction false} FirstWordIsPrefix(s: string)
    ensures FirstWord(s) <= s
  {
    JoinStartsWithFirst(Split(s));
  }

  /** Extending a line after a space leaves its first word alone. */
  lemma {:induction false} FirstWordExtend(c: string, w: string)
    ensures FirstWord(c + " " + w) == FirstWord(c)
    decreases |c|
  {
    var s := c + " " + w;
    if |c| > 0 && c[0] != ' ' {
      assert s[1..] == c[1..] + " " + w;
      FirstWordExtend(c[1..], w);
    } else if |c| == 0 {
      assert s[0] == ' ';
    }
  }

  /** No leading, trailing or doubled spaces (neighbours named by two
      positions, as in `NoDoubleWhitespace`). */
  predicate SingleSpaced(s: string) {
    && |s| > 0
    && s[0] != ' '
    && s[|s| - 1] != ' '
    && forall j, k :: 0 <= j < |s| && j < k < |s| && k == j + 1 ==> !(s[j] == ' ' && s[k] == ' ')
  }

  /** A single-spaced text splits into non-empty words. */
  lemma {:induction false} SingleSpacedWords(s: string)
    requires SingleSpaced(s)
    ensures forall k :: 0 <= k < |Split(s)| ==> Split(s)[k] != ""
    decreases |s|
  {
    var rest := Split(s[1..]);
    if |s| == 1 {
    } else if s[1] != ' ' {
      SingleSpacedWords(s[1..]);
    } else {
      assert s[1..][1..] == s[2..];
      assert Split(s[1..]) == [""] + Split(s[2..]);
      assert SingleSpaced(s[2..]);
      SingleSpacedWords(s[2..]);
    }
  }

  /** Concatenation regroups freely. */
  lemma ConcatAssoc(x: string, y: string, z: string)
    ensures x + (y + z) == (x + y) + z
  {
  }

  /** The concatenation of a sequence of strings. */
  function Concat(parts: seq<string>): string {
    if |parts| == 0 then "" else parts[0] + Concat(parts[1..])
  }

  // ---------------------------------------------------------------------------
  // Regex replacement of character runs.

  /** The character classes the handler's regex replacements rewrite: every
      whitespace character, and the newline alone. */
  datatype RunClass = AnyWhitespace | Newlines

  predicate InClass(c: char, cls: RunClass) {
    match cls
    case AnyWhitespace => IsWhitespace(c)
    case Newlines => c == '\n'
  }

  /** The global replacement of each maximal run of class characters by one
      space, scanning with a flag that says whether the previous character
      already started a replaced run. */
  function ReplaceRunsFrom(s: string, cls: RunClass, inRun: bool): (r: string)
    ensures forall k :: 0 <= k < |r| && InClass(r[k], cls) ==> r[k] == ' '
    ensures (forall k :: 0 <= k < |s| ==> !InClass(s[k], cls)) ==> r == s
    ensures cls == AnyWhitespace ==> NoDoubleWhitespace(r)
    ensures cls == AnyWhitespace && inRun && r != [] ==> !IsWhitespace(r[0])
    decreases |s|
  {
    if |s| == 0 then ""
    else if InClass(s[0], cls) then
      var rest := ReplaceRunsFrom(s[1..], cls, true);
      if inRun then rest else " " + rest
    else
      var rest := ReplaceRunsFrom(s[1..], cls, false);
      assert [s[0]] + s[1..] == s;
      [s[0]] + rest
  }

  /** Every maximal run of class characters becomes one space. */
  function ReplaceRuns(s: string, cls: RunClass): (r: string)
    ensures forall k :: 0 <= k < |r| && InClass(r[k], cls) ==> r[k] == ' '
    ensures (forall k :: 0 <= k < |s| ==> !InClass(s[k], cls)) ==> r == s
    ensures cls == AnyWhitespace ==> NoDoubleWhitespace(r)
  {
    ReplaceRunsFrom(s, cls, false)
  }

  /** Outside a run, the replacement starts with whitespace exactly when the
      text does. */
  lemma ReplaceRunsFront(s: string)
    requires s != []
    ensures var r := ReplaceRunsFrom(s, AnyWhitespace, false);
      r != [] && (IsWhitespace(r[0]) <==> IsWhitespace(s[0]))
  {
  }

  /** Collapsing whitespace runs loses no word. */
  lemma {:induction false} ReplaceRunsKeepsWords(s: string, inRun: bool)
    ensures Words(ReplaceRunsFrom(s, AnyWhitespace, inRun)) == Words(s)
    decreases |s|
  {
    if |s| > 0 {
      var r := ReplaceRunsFrom(s, AnyWhitespace, inRun);
      if IsWhitespace(s[0]) {
        var rest := ReplaceRunsFrom(s[1..], AnyWhitespace, true);
        ReplaceRunsKeepsWords(s[1..], true);
        if !inRun {
          assert r[1..] == rest;
        }
      } else {
        var rest := ReplaceRunsFrom(s[1..], AnyWhitespace, false);
        ReplaceRunsKeepsWords(s[1..], false);
        assert r[1..] == rest;
        if |s| > 1 {
          ReplaceRunsFront(s[1..]);
          assert r[1] == rest[0] && s[1] == s[1..][0];
        }
      }
    }
  }
}
