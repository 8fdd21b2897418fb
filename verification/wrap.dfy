/**
 The text wrapper of the video route: words separated by single spaces are
 gathered greedily into display lines of at most `maxWidth` UTF-16 code units
 (the JavaScript length); a word that is longer than that on its own gets a
 line to itself, unbroken.
 */
module Wrap {
  import opened Text

  /** A line fits when it is within the width or is one unbroken word. */
  predicate Fits(line: string, maxWidth: int) {
    Utf16Length(line) <= maxWidth || ' ' !in line
  }

  predicate GoodLines(lines: seq<string>, maxWidth: int) {
    forall k :: 0 <= k < |lines| ==> lines[k] != "" && Fits(lines[k], maxWidth)
  }

  /** No line could have taken the first word of the line after it
      (neighbours named by two positions, as in `NoDoubleWhitespace`). */
  predicate Greedy(lines: seq<string>, maxWidth: int) {
    forall j, k :: 0 <= j < |lines| && j < k < |lines| && k == j + 1 ==>
      Utf16Length(lines[j]) + 1 + Utf16Length(FirstWord(lines[k])) > maxWidth
  }

  /** The `forEach` over the words, with the lines pushed so far and the line
      being built as the accumulator; the trailing line is pushed if non-empty. */
  function WrapFrom(words: seq<string>, maxWidth: int, lines: seq<string>, current: string): (r: seq<string>)
    requires forall k :: 0 <= k < |words| ==> ' ' !in words[k]
    requires GoodLines(lines, maxWidth) && Fits(current, maxWidth)
    ensures GoodLines(r, maxWidth)
    ensures lines <= r
    decreases |words|
  {
    if |words| == 0 then
      if current != "" then lines + [current] else lines
    else
      var word := words[0];
      var testLine := if current != "" then current + " " + word else word;
      if Utf16Length(testLine) > maxWidth then
        WrapFrom(words[1..], maxWidth, if current != "" then lines + [current] else lines, word)
      else
        WrapFrom(words[1..], maxWidth, lines, testLine)
  }

  /** `wrapText(text, maxWidth)`. Every line is non-empty, and a line wider
      than `maxWidth` is a single word; an empty text gives no lines. */
  function WrapText(text: string, maxWidth: int): (lines: seq<string>)
    ensures GoodLines(lines, maxWidth)
    ensures text == "" ==> lines == []
  {
    var words := Split(text);
    assert text == "" ==> words == [""];
    assert text == "" ==> WrapFrom(words[1..], maxWidth, [], "") == [];
    WrapFrom(words, maxWidth, [], "")
  }

  /** The words of the input come back, in order, when the lines are joined. */
  lemma {:induction false} WrapFromJoin(words: seq<string>, maxWidth: int, lines: seq<string>, current: string)
    requires forall k :: 0 <= k < |words| ==> ' ' !in words[k] && words[k] != ""
    requires GoodLines(lines, maxWidth) && Fits(current, maxWidth)
    requires current == "" ==> lines == []
    ensures current == "" ==> Join(WrapFrom(words, maxWidth, lines, current)) == Join(words)
    ensures current != "" ==> Join(WrapFrom(words, maxWidth, lines, current)) == Join(lines + [current] + words)
    decreases |words|
  {
    if |words| == 0 {
      assert lines + [current] + words == lines + [current];
    } else {
      var word := words[0];
      var rest := words[1..];
      if current == "" {
        WrapFromJoin(rest, maxWidth, [], word);
        assert [] + [word] + rest == words;
      } else {
        var testLine := current + " " + word;
        if Utf16Length(testLine) > maxWidth {
          PushGood(lines, current, maxWidth);
          WrapFromJoin(rest, maxWidth, lines + [current], word);
          assert lines + [current] + [word] + rest == lines + [current] + words;
        } else {
          WrapFromJoin(rest, maxWidth, lines, testLine);
          JoinMerge(lines, current, word, rest);
          assert lines + [current, word] + rest == lines + [current] + words;
        }
      }
    }
  }

  /** Round trip: joining the lines of a single-spaced text with single spaces
      gives back the text, so no word is lost, reordered or split. */
  lemma {:induction false} WrapRoundTrip(text: string, maxWidth: int)
    requires SingleSpaced(text)
    ensures Join(WrapText(text, maxWidth)) == text
  {
    SingleSpacedWords(text);
    WrapFromJoin(Split(text), maxWidth, [], "");
  }

  lemma {:induction false} WrapFromGreedy(words: seq<string>, maxWidth: int, lines: seq<string>, current: string)
    requires forall k :: 0 <= k < |words| ==> ' ' !in words[k] && words[k] != ""
    requires GoodLines(lines, maxWidth) && Fits(current, maxWidth)
    requires current == "" ==> lines == []
    requires Greedy(lines, maxWidth)
    requires |lines| > 0 ==> Utf16Length(lines[|lines| - 1]) + 1 + Utf16Length(FirstWord(current)) > maxWidth
    ensures Greedy(WrapFrom(words, maxWidth, lines, current), maxWidth)
    decreases |words|
  {
    if |words| == 0 {
      if current != "" {
        PushGreedy(lines, current, maxWidth);
      }
    } else {
      var word := words[0];
      var rest := words[1..];
      if current == "" {
        WrapFromGreedy(rest, maxWidth, [], word);
      } else {
        var testLine := current + " " + word;
        if Utf16Length(testLine) > maxWidth {
          PushGreedy(lines, current, maxWidth);
          PushGood(lines, current, maxWidth);
          SplitWord(word);
          Utf16Spaced(current, word);
          WrapFromGreedy(rest, maxWidth, lines + [current], word);
        } else {
          FirstWordExtend(current, word);
          WrapFromGreedy(rest, maxWidth, lines, testLine);
        }
      }
    }
  }

  /** Pushing a line that the previous one could not absorb keeps the lines
      greedy. */
  lemma {:induction false} PushGreedy(lines: seq<string>, current: string, maxWidth: int)
    requires Greedy(lines, maxWidth)
    requires |lines| > 0 ==> Utf16Length(lines[|lines| - 1]) + 1 + Utf16Length(FirstWord(current)) > maxWidth
    ensures Greedy(lines + [current], maxWidth)
  {
    var r := lines + [current];
    assert forall k :: 0 <= k < |lines| ==> r[k] == lines[k];
  }

  /** Pushing a non-empty line that fits keeps the lines good. */
  lemma {:induction false} PushGood(lines: seq<string>, current: string, maxWidth: int)
    requires GoodLines(lines, maxWidth) && current != "" && Fits(current, maxWidth)
    ensures GoodLines(lines + [current], maxWidth)
  {
    var r := lines + [current];
    assert forall k :: 0 <= k < |lines| ==> r[k] == lines[k];
  }

  /** Greedy: for a single-spaced text, the first word of each line would have
      pushed the line before it past `maxWidth`. */
  lemma {:induction false} WrapIsGreedy(text: string, maxWidth: int)
    requires SingleSpaced(text)
    ensures Greedy(WrapText(text, maxWidth), maxWidth)
  {
    SingleSpacedWords(text);
    WrapFromGreedy(Split(text), maxWidth, [], "");
  }

  /** A text without spaces is one line, however long it is. */
  lemma {:induction false} OneWordOneLine(text: string, maxWidth: int)
    requires text != "" && ' ' !in text
    ensures WrapText(text, maxWidth) == [text]
  {
    SplitWord(text);
    assert WrapFrom([], maxWidth, [], text) == [text];
  }

  /** A single-spaced text that fits the width stays on one line. */
  lemma {:induction false} ShortTextOneLine(text: string, maxWidth: int)
    requires SingleSpaced(text) && Utf16Length(text) <= maxWidth
    ensures WrapText(text, maxWidth) == [text]
  {
    var lines := WrapText(text, maxWidth);
    WrapRoundTrip(text, maxWidth);
    WrapIsGreedy(text, maxWidth);
    if |lines| >= 2 {
      GreedyLinesOverflow(lines, maxWidth);
    }
  }

  /** Two or more greedy lines, joined, are wider than the width. */
  lemma {:induction false} GreedyLinesOverflow(lines: seq<string>, maxWidth: int)
    requires |lines| >= 2 && Greedy(lines, maxWidth)
    ensures Utf16Length(Join(lines)) > maxWidth
  {
    JoinAppend([lines[0]], lines[1..]);
    assert [lines[0]] + lines[1..] == lines;
    JoinStartsWithFirst(lines[1..]);
    FirstWordIsPrefix(lines[1]);
    Utf16Prefix(FirstWord(lines[1]), Join(lines[1..]));
    Utf16Spaced(lines[0], Join(lines[1..]));
  }
}
