/**
 The frame builder of the video route: the text is cut into sentences by the
 global pattern "a run of characters other than `.`, `!` and `?`, followed by
 a run of those terminators", at most ten of them are kept, and each becomes a
 frame shown for three seconds.
 */
module Frames {
  import opened Text

  /** Display time of a frame, in whole seconds; always positive. */
  type Seconds = d: int | d > 0 witness 1

  datatype Frame = Frame(text: string, duration: Seconds)

  const MaxFrames: nat := 10
  const SentenceSeconds: Seconds := 3
  /** The fallback frame: at most this many UTF-16 code units, shown this
      long. */
  const FallbackChars: nat := 200
  const FallbackSeconds: Seconds := 5

  predicate IsTerminator(c: char) {
    c == '.' || c == '!' || c == '?'
  }

  /** Length of the longest run of terminators (`terminators` true) or of
      non-terminators (`terminators` false) that starts at index `i`. */
  function RunFrom(s: string, i: nat, terminators: bool): (n: nat)
    requires i <= |s|
    ensures i + n <= |s|
    decreases |s| - i
  {
    if i < |s| && IsTerminator(s[i]) == terminators then 1 + RunFrom(s, i + 1, terminators) else 0
  }

  /** The run holds only characters of its kind and stops at the end of the
      text or at a character of the other kind. */
  lemma {:induction false} RunFromSpan(s: string, i: nat, terminators: bool)
    requires i <= |s|
    ensures var n := RunFrom(s, i, terminators);
      && (forall k :: i <= k < i + n ==> IsTerminator(s[k]) == terminators)
      && (i + n == |s| || IsTerminator(s[i + n]) != terminators)
    decreases |s| - i
  {
    if i < |s| && IsTerminator(s[i]) == terminators {
      RunFromSpan(s, i + 1, terminators);
    }
  }

  /** The shape of one regex match: non-terminators, then terminators, each
      run non-empty. Neighbours are named by two positions, as in
      `NoDoubleWhitespace`. */
  predicate IsSentence(m: string) {
    && |m| >= 2
    && !IsTerminator(m[0])
    && IsTerminator(m[|m| - 1])
    && forall j, k :: 0 <= j < |m| && j < k < |m| && k == j + 1 ==> !(IsTerminator(m[j]) && !IsTerminator(m[k]))
  }

  predicate NoTerminator(s: string) {
    forall k :: 0 <= k < |s| ==> !IsTerminator(s[k])
  }

  /** A run of non-terminators followed by a run of terminators is a sentence. */
  lemma RunsMakeSentence(s: string, body: nat, end: nat)
    requires 0 < body < end <= |s|
    requires forall k :: 0 <= k < body ==> !IsTerminator(s[k])
    requires forall k :: body <= k < end ==> IsTerminator(s[k])
    ensures IsSentence(s[..end])
  {
  }

  /** The sentence matches found by scanning from position `i`. A match
      cannot start at a terminator; a run of non-terminators that reaches the
      end without a terminator cannot match at all. */
  function MatchesFrom(s: string, i: nat): seq<string>
    requires i <= |s|
    decreases |s| - i
  {
    if i == |s| then []
    else if IsTerminator(s[i]) then MatchesFrom(s, i + 1)
    else
      var body := i + RunFrom(s, i, false);
      if body == |s| then []
      else
        var end := body + RunFrom(s, body, true);
        [s[i..end]] + MatchesFrom(s, end)
  }

  /** Every match has the shape of a sentence. */
  lemma {:induction false} MatchesAreSentences(s: string, i: nat)
    requires i <= |s|
    ensures forall k :: 0 <= k < |MatchesFrom(s, i)| ==> IsSentence(MatchesFrom(s, i)[k])
    decreases |s| - i
  {
    if i < |s| {
      if IsTerminator(s[i]) {
        MatchesAreSentences(s, i + 1);
      } else {
        var body := i + RunFrom(s, i, false);
        if body < |s| {
          var end := body + RunFrom(s, body, true);
          RunFromSpan(s, i, false);
          RunFromSpan(s, body, true);
          RunsMakeSentence(s[i..], body - i, end - i);
          assert s[i..][..end - i] == s[i..end];
          MatchesAreSentences(s, end);
        }
      }
    }
  }

  /** All sentence matches of the text, left to right; the empty list when
      there are none. */
  function SentenceMatches(s: string): (ms: seq<string>)
    ensures forall k :: 0 <= k < |ms| ==> IsSentence(ms[k])
  {
    MatchesAreSentences(s, 0);
    MatchesFrom(s, 0)
  }

  /** The matches, or the whole text as the one sentence when there are
      none. */
  function SentencesOf(text: string): (sentences: seq<string>)
    ensures |sentences| >= 1
  {
    var ms := SentenceMatches(text);
    if |ms| > 0 then ms else [text]
  }

  /** One frame per sentence, in order: the sentence trimmed, shown for three
      seconds. */
  function SentenceFrames(sentences: seq<string>): (frames: seq<Frame>)
    ensures |frames| == |sentences|
    ensures forall k :: 0 <= k < |frames| ==> frames[k] == Frame(Trim(sentences[k]), SentenceSeconds)
  {
    if |sentences| == 0 then [] else [Frame(Trim(sentences[0]), SentenceSeconds)] + SentenceFrames(sentences[1..])
  }

  /** `createFrames(text)`. The fallback for an empty frame list is kept as
      written; the contract shows it never fires: there are always between one
      and ten frames, every one of three seconds. */
  function CreateFrames(text: string): (frames: seq<Frame>)
    ensures 1 <= |frames| <= MaxFrames
    ensures forall k :: 0 <= k < |frames| ==> frames[k].duration == SentenceSeconds
  {
    var sentences := SentencesOf(text);
    var frames := SentenceFrames(sentences[..Min(|sentences|, MaxFrames)]);
    if |frames| == 0 then [Frame(UnitPrefix(text, FallbackChars), FallbackSeconds)] else frames
  }

  /** From `start` on, `s` is the concatenation of `ms` followed by a tail
      without terminators. */
  predicate TilesFrom(s: string, start: nat, ms: seq<string>) {
    var body := Concat(ms);
    && start + |body| <= |s|
    && s[start..start + |body|] == body
    && NoTerminator(s[start + |body|..])
  }

  /** The matches tile the text: after a run of terminators at `i` they follow
      one another without gaps, and what is left after them holds no
      terminator. So matches come in input order and only an unterminated tail
      is dropped. */
  lemma {:induction false} MatchesTileFrom(s: string, i: nat)
    requires i <= |s|
    ensures TilesFrom(s, i + RunFrom(s, i, true), MatchesFrom(s, i))
    decreases |s| - i
  {
    if i == |s| {
    } else if IsTerminator(s[i]) {
      MatchesTileFrom(s, i + 1);
      assert RunFrom(s, i, true) == 1 + RunFrom(s, i + 1, true);
    } else {
      var body := i + RunFrom(s, i, false);
      if body < |s| {
        var end := body + RunFrom(s, body, true);
        MatchesTileFrom(s, end);
        TileSentence(s, i, body, end);
      } else {
        TileUnterminated(s, i);
      }
    }
  }

  /** The step of the tiling across one match. */
  lemma {:induction false} TileSentence(s: string, i: nat, body: nat, end: nat)
    requires i < |s| && !IsTerminator(s[i])
    requires body == i + RunFrom(s, i, false) && body < |s|
    requires end == body + RunFrom(s, body, true)
    requires TilesFrom(s, end + RunFrom(s, end, true), MatchesFrom(s, end))
    ensures TilesFrom(s, i + RunFrom(s, i, true), MatchesFrom(s, i))
  {
    RunFromSpan(s, body, true);
    assert RunFrom(s, end, true) == 0;
    assert RunFrom(s, i, true) == 0;
    MatchesFromSentence(s, i, body, end);
    TileStep(s, i, end, MatchesFrom(s, end));
  }

  /** A run of non-terminators that reaches the end gives no match and
      leaves a tail without terminators. */
  lemma {:induction false} TileUnterminated(s: string, i: nat)
    requires i < |s| && !IsTerminator(s[i]) && i + RunFrom(s, i, false) == |s|
    ensures TilesFrom(s, i + RunFrom(s, i, true), MatchesFrom(s, i))
  {
    RunFromSpan(s, i, false);
    assert RunFrom(s, i, true) == 0;
    assert MatchesFrom(s, i) == [];
    assert NoTerminator(s[i..]) by {
      assert forall k :: 0 <= k < |s| - i ==> s[i..][k] == s[i + k];
    }
  }

  /** Unfolding one match: from a non-terminator, the runs of
      non-terminators and of terminators that follow make the next match. */
  lemma MatchesFromSentence(s: string, i: nat, body: nat, end: nat)
    requires i < |s| && !IsTerminator(s[i])
    requires body == i + RunFrom(s, i, false) && body < |s|
    requires end == body + RunFrom(s, body, true)
    ensures MatchesFrom(s, i) == [s[i..end]] + MatchesFrom(s, end)
  {
  }

  lemma {:induction false} TileStep(s: string, i: nat, end: nat, rest: seq<string>)
    requires i < end <= |s|
    requires TilesFrom(s, end, rest)
    ensures TilesFrom(s, i, [s[i..end]] + rest)
  {
    var m := s[i..end];
    var tail := Concat(rest);
    assert ([m] + rest)[1..] == rest;
    assert Concat([m] + rest) == m + tail;
    assert s[i..end + |tail|] == m + s[end..end + |tail|];
  }

  /** The matches of a whole text tile it after its leading terminators. */
  lemma {:induction false} MatchesTileText(s: string)
    ensures TilesFrom(s, RunFrom(s, 0, true), SentenceMatches(s))
  {
    MatchesTileFrom(s, 0);
  }

  /** A sentence at `lastIndex` that cannot be extended is the next match. */
  lemma {:induction false} MatchesConsumeSentence(s: string, i: nat, j: nat)
    requires i < j <= |s| && IsSentence(s[i..j])
    requires j == |s| || !IsTerminator(s[j])
    ensures MatchesFrom(s, i) == [s[i..j]] + MatchesFrom(s, j)
  {
    var body := SentenceRuns(s, i, j);
    MatchesFromSentence(s, i, body, j);
  }

  /** The runs that make up a sentence standing at `i` and ending at `j`:
      the match found there runs exactly to `j`. */
  lemma {:induction false} SentenceRuns(s: string, i: nat, j: nat) returns (body: nat)
    requires i < j <= |s| && IsSentence(s[i..j])
    requires j == |s| || !IsTerminator(s[j])
    ensures i < body < j && !IsTerminator(s[i])
    ensures body == i + RunFrom(s, i, false) && j == body + RunFrom(s, body, true)
  {
    var m := s[i..j];
    var p := RunFrom(m, 0, false);
    RunFromSpan(m, 0, false);
    assert p < |m|;
    body := i + p;
    forall k | i <= k < body
      ensures !IsTerminator(s[k])
    {
      assert s[k] == m[k - i];
    }
    assert s[body] == m[p] && s[i] == m[0];
    RunFromUnique(s, i, false, p);
    forall k | body <= k < j
      ensures IsTerminator(s[k])
    {
      SentenceTailIsTerminators(m, p, k - i);
      assert m[k - i] == s[k];
    }
    RunFromUnique(s, body, true, j - body);
  }

  /** A run is determined by where it stops. */
  lemma {:induction false} RunFromUnique(s: string, i: nat, terminators: bool, n: nat)
    requires i + n <= |s|
    requires forall k :: i <= k < i + n ==> IsTerminator(s[k]) == terminators
    requires i + n == |s| || IsTerminator(s[i + n]) != terminators
    ensures RunFrom(s, i, terminators) == n
    decreases n
  {
    if n > 0 {
      RunFromUnique(s, i + 1, terminators, n - 1);
    }
  }

  lemma {:induction false} SentenceTailIsTerminators(m: string, i: nat, k: nat)
    requires IsSentence(m)
    requires i <= k < |m| && IsTerminator(m[i])
    ensures IsTerminator(m[k])
    decreases k - i
  {
    if i < k {
      SentenceTailIsTerminators(m, i + 1, k);
    }
  }

  /** The frames show the trimmed sentences in order, ten at most; without any
      match the trimmed text is the one frame. */
  lemma FrameTexts(text: string)
    ensures var ms := SentenceMatches(text);
      var frames := CreateFrames(text);
      && (|ms| == 0 ==> frames == [Frame(Trim(text), SentenceSeconds)])
      && (|ms| > 0 ==> |frames| == Min(|ms|, MaxFrames)
                        && forall k :: 0 <= k < |frames| ==> frames[k].text == Trim(ms[k]))
  {
  }

  /** Every frame cut from a sentence ends with that sentence's terminator. */
  lemma {:induction false} SentenceFramesEndWithTerminator(text: string)
    requires |SentenceMatches(text)| > 0
    ensures forall k :: 0 <= k < |CreateFrames(text)| ==>
      var t := CreateFrames(text)[k].text;
      t != [] && IsTerminator(t[|t| - 1])
  {
    var ms := SentenceMatches(text);
    var frames := CreateFrames(text);
    forall k | 0 <= k < |frames|
      ensures frames[k].text != [] && IsTerminator(frames[k].text[|frames[k].text| - 1])
    {
      FrameEndsWithTerminator(text, k);
    }
  }

  lemma {:induction false} FrameEndsWithTerminator(text: string, k: nat)
    requires |SentenceMatches(text)| > 0 && k < |CreateFrames(text)|
    ensures var t := CreateFrames(text)[k].text; t != [] && IsTerminator(t[|t| - 1])
  {
    var ms := SentenceMatches(text);
    FrameOfMatch(text, k);
    TrimKeepsTerminator(ms[k]);
  }

  /** With matches, frame `k` shows match `k`, trimmed. */
  lemma {:induction false} FrameOfMatch(text: string, k: nat)
    requires |SentenceMatches(text)| > 0 && k < |CreateFrames(text)|
    ensures k < |SentenceMatches(text)| && CreateFrames(text)[k].text == Trim(SentenceMatches(text)[k])
  {
    var ms := SentenceMatches(text);
    var kept := ms[..Min(|ms|, MaxFrames)];
    assert CreateFrames(text) == SentenceFrames(kept);
    assert kept[k] == ms[k];
  }

  lemma {:induction false} TrimKeepsTerminator(m: string)
    requires IsSentence(m)
    ensures var t := Trim(m); t != [] && t[|t| - 1] == m[|m| - 1] && IsTerminator(t[|t| - 1])
  {
    TrimKeepsEnd(m);
  }

  /** An example: "One. Two! Three?" becomes three frames. */
  lemma ThreeSentences()
    ensures CreateFrames("One. Two! Three?") ==
      [Frame("One.", 3), Frame("Two!", 3), Frame("Three?", 3)]
  {
    ThreeSentenceMatches();
    FramesOfMatches("One. Two! Three?", ["One.", " Two!", " Three?"]);
    ThreeFrames();
  }

  lemma ThreeFrames()
    ensures SentenceFrames(["One.", " Two!", " Three?"]) == [Frame("One.", 3), Frame("Two!", 3), Frame("Three?", 3)]
  {
    SentenceFramesOfThree("One.", " Two!", " Three?");
    TrimOne();
    TrimTwo();
    TrimThree();
  }

  lemma SentenceFramesOfThree(a: string, b: string, c: string)
    ensures SentenceFrames([a, b, c]) == [Frame(Trim(a), 3), Frame(Trim(b), 3), Frame(Trim(c), 3)]
  {
  }

  /** Frames of a text whose matches are known. */
  lemma {:induction false} FramesOfMatches(text: string, ms: seq<string>)
    requires SentenceMatches(text) == ms && 0 < |ms| <= MaxFrames
    ensures CreateFrames(text) == SentenceFrames(ms)
  {
    assert ms[..Min(|ms|, MaxFrames)] == ms;
  }

  lemma TrimOne()
    ensures Trim("One.") == "One."
  {
  }

  lemma TrimTwo()
    ensures Trim(" Two!") == "Two!"
  {
    assert " Two!"[1..] == "Two!";
  }

  lemma TrimThree()
    ensures Trim(" Three?") == "Three?"
  {
    assert " Three?"[1..] == "Three?";
  }

  lemma ThreeSentenceMatches()
    ensures SentenceMatches("One. Two! Three?") == ["One.", " Two!", " Three?"]
  {
    LastOfThree();
    SecondOfThree();
    FirstOfThree();
  }

  lemma LastOfThree()
    ensures MatchesFrom("One. Two! Three?", 9) == [" Three?"]
  {
    assert "One. Two! Three?"[9..16] == " Three?";
    MatchesConsumeSentence("One. Two! Three?", 9, 16);
  }

  lemma SecondOfThree()
    ensures MatchesFrom("One. Two! Three?", 4) == [" Two!"] + MatchesFrom("One. Two! Three?", 9)
  {
    assert "One. Two! Three?"[4..9] == " Two!";
    MatchesConsumeSentence("One. Two! Three?", 4, 9);
  }

  lemma FirstOfThree()
    ensures MatchesFrom("One. Two! Three?", 0) == ["One."] + MatchesFrom("One. Two! Three?", 4)
  {
    assert "One. Two! Three?"[0..4] == "One.";
    MatchesConsumeSentence("One. Two! Three?", 0, 4);
  }

  /** A text that is one sentence, without leading whitespace, is one frame
      holding the whole text. */
  lemma {:induction false} OneSentenceOneFrame(text: string)
    requires IsSentence(text) && !IsWhitespace(text[0])
    ensures CreateFrames(text) == [Frame(text, SentenceSeconds)]
  {
    assert text[0..|text|] == text;
    MatchesConsumeSentence(text, 0, |text|);
    FramesOfMatches(text, [text]);
    TrimOfTrimmed(text);
  }

  /** The empty text has no match, so it becomes one empty three-second frame
      through `[text]`; the five-second fallback is not reached. */
  lemma EmptyTextFrame()
    ensures CreateFrames("") == [Frame("", SentenceSeconds)]
  {
  }

  /** Cutting matches out of a text keeps its spacing: a text whose
      whitespace is single plain spaces yields matches of the same kind. */
  lemma {:induction false} MatchesKeepSpacing(s: string, i: nat)
    requires i <= |s| && NoDoubleWhitespace(s) && WhitespaceIsSpace(s)
    ensures forall k :: 0 <= k < |MatchesFrom(s, i)| ==>
      NoDoubleWhitespace(MatchesFrom(s, i)[k]) && WhitespaceIsSpace(MatchesFrom(s, i)[k])
    decreases |s| - i
  {
    if i < |s| {
      if IsTerminator(s[i]) {
        MatchesKeepSpacing(s, i + 1);
      } else {
        var body := i + RunFrom(s, i, false);
        if body < |s| {
          var end := body + RunFrom(s, body, true);
          SliceKeepsSpacing(s, i, end);
          MatchesKeepSpacing(s, end);
        }
      }
    }
  }

  /** A text with single plain spaces, trimmed, is single-spaced unless
      nothing is left. */
  lemma {:induction false} SpacedTrimIsSingleSpaced(s: string)
    requires NoDoubleWhitespace(s) && WhitespaceIsSpace(s) && Trim(s) != []
    ensures SingleSpaced(Trim(s))
  {
    TrimKeepsSpacing(s);
  }

  /** Every frame of a text with words, whose whitespace is single plain
      spaces, holds a single-spaced text. */
  lemma {:induction false} CleanTextFrames(text: string)
    requires NoDoubleWhitespace(text) && WhitespaceIsSpace(text) && Words(text) != []
    ensures forall k :: 0 <= k < |CreateFrames(text)| ==> SingleSpaced(CreateFrames(text)[k].text)
  {
    var ms := SentenceMatches(text);
    var frames := CreateFrames(text);
    FrameTexts(text);
    if |ms| == 0 {
      TrimKeepsWords(text);
      SpacedTrimIsSingleSpaced(text);
    } else {
      MatchesKeepSpacing(text, 0);
      forall k | 0 <= k < |frames|
        ensures SingleSpaced(frames[k].text)
      {
        TrimKeepsTerminator(ms[k]);
        SpacedTrimIsSingleSpaced(ms[k]);
      }
    }
  }

  /** Text without terminators in front of a sentence leaves one sentence. */
  lemma {:induction false} PlainThenSentence(x: string, m: string)
    requires x != [] && NoTerminator(x) && IsSentence(m)
    ensures IsSentence(x + m)
  {
    var s := x + m;
    forall k | 0 <= k < |s| - 1
      ensures !(IsTerminator(s[k]) && !IsTerminator(s[k + 1]))
    {
      if k < |x| {
        assert s[k] == x[k];
      } else {
        assert s[k] == m[k - |x|] && s[k + 1] == m[k + 1 - |x|];
      }
    }
  }
}
